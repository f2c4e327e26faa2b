/** The in-process cache: an ordered store, oldest entry first, with an absolute expiry on every entry. */
module TtlCache {
  import opened Options

  datatype Entry<V> = Entry(key: string, expiry: real, value: V)
  type Store<V> = seq<Entry<V>>

  function Find<V>(s: Store<V>, key: string): Option<Entry<V>> {
    if s == [] then None
    else if s[|s| - 1].key == key then Some(s[|s| - 1])
    else Find(s[..|s| - 1], key)
  }

  function Filter<V>(s: Store<V>, keep: string -> bool): (r: Store<V>)
    ensures |r| <= |s|
  {
    if s == [] then []
    else Filter(s[..|s| - 1], keep) + if keep(s[|s| - 1].key) then [s[|s| - 1]] else []
  }

  function Except(key: string): string -> bool {
    (k: string) => k != key
  }

  function ExceptAll(keys: seq<string>): string -> bool {
    (k: string) => k !in keys
  }

  function NotUnder(prefix: string): string -> bool {
    (k: string) => !(prefix <= k)
  }

  function Without<V>(s: Store<V>, key: string): Store<V> {
    Filter(s, Except(key))
  }

  function Live<V>(s: Store<V>, key: string, now: real): Option<Entry<V>> {
    var e := Find(s, key);
    if e == None || now >= e.value.expiry then None else e
  }

  /** The store after a lookup: an expired entry goes, a live one becomes the newest. */
  function AfterGet<V>(s: Store<V>, key: string, now: real): Store<V> {
    if Find(s, key) == None then s
    else if Live(s, key, now) == None then Without(s, key)
    else Without(s, key) + [Find(s, key).value]
  }

  /** The eviction loop. */
  function Evict<V>(s: Store<V>, max: nat): (r: Store<V>)
    ensures |r| <= max
  {
    if |s| > max then Evict(s[1..], max) else s
  }

  function AfterSet<V>(s: Store<V>, max: nat, key: string, value: V, expiry: real): Store<V> {
    Evict(Without(s, key) + [Entry(key, expiry, value)], max)
  }

  function AfterInvalidate<V>(s: Store<V>, prefix: string): Store<V> {
    Filter(s, NotUnder(prefix))
  }

  ghost predicate UniqueKeys<V>(s: Store<V>) {
    forall i, j :: 0 <= i < j < |s| ==> s[i].key != s[j].key
  }

  lemma {:induction false} FindSpec<V>(s: Store<V>, key: string)
    ensures Find(s, key) == None <==> forall e :: e in s ==> e.key != key
    ensures Find(s, key) != None ==> Find(s, key).value in s && Find(s, key).value.key == key
    ensures UniqueKeys(s) ==> forall e :: e in s && e.key == key ==> Find(s, key) == Some(e)
  {
    if s != [] {
      var n := |s| - 1;
      FindSpec(s[..n], key);
      assert s == s[..n] + [s[n]];
    }
  }

  lemma {:induction false} FilterMembers<V>(s: Store<V>, keep: string -> bool)
    ensures forall e :: e in Filter(s, keep) ==> e in s && keep(e.key)
    ensures forall e :: e in s && keep(e.key) ==> e in Filter(s, keep)
  {
    if s != [] {
      var n := |s| - 1;
      FilterMembers(s[..n], keep);
      assert s == s[..n] + [s[n]];
    }
  }

  lemma {:induction false} FilterUnique<V>(s: Store<V>, keep: string -> bool)
    requires UniqueKeys(s)
    ensures UniqueKeys(Filter(s, keep))
  {
    if s != [] {
      var n := |s| - 1;
      FilterUnique(s[..n], keep);
      FilterMembers(s[..n], keep);
      var front := Filter(s[..n], keep);
      forall i | 0 <= i < |front| ensures front[i].key != s[n].key {
        var e := front[i];
        assert e in front;
        var j :| 0 <= j < n && s[..n][j] == e;
        assert s[j].key != s[n].key;
      }
    }
  }

  lemma FilterSpec<V>(s: Store<V>, keep: string -> bool)
    ensures forall e :: e in Filter(s, keep) ==> e in s && keep(e.key)
    ensures forall e :: e in s && keep(e.key) ==> e in Filter(s, keep)
    ensures UniqueKeys(s) ==> UniqueKeys(Filter(s, keep))
  {
  }

  lemma {:induction false} FilterAll<V>(s: Store<V>, keep: string -> bool)
    requires forall e :: e in s ==> keep(e.key)
    ensures Filter(s, keep) == s
  {
    if s != [] {
      var n := |s| - 1;
      assert s == s[..n] + [s[n]];
      FilterAll(s[..n], keep);
    }
  }

  lemma {:induction false} FilterAppend<V>(s: Store<V>, t: Store<V>, keep: string -> bool)
    ensures Filter(s + t, keep) == Filter(s, keep) + Filter(t, keep)
    decreases |t|
  {
    if t == [] {
      assert s + t == s;
    } else {
      assert (s + t)[..|s + t| - 1] == s + t[..|t| - 1];
      FilterAppend(s, t[..|t| - 1], keep);
    }
  }

  /** Removing a key that is there removes one entry. */
  lemma {:induction false} WithoutOne<V>(s: Store<V>, key: string)
    requires UniqueKeys(s)
    ensures |Without(s, key)| == |s| - if Find(s, key) == None then 0 else 1
  {
    if s != [] {
      var n := |s| - 1;
      var keep := Except(key);
      if s[n].key == key {
        FilterAll(s[..n], keep);
      } else {
        WithoutOne(s[..n], key);
      }
    }
  }

  lemma {:induction false} EvictDrops<V>(s: Store<V>, max: nat)
    ensures Evict(s, max) == s[if |s| > max then |s| - max else 0..]
  {
    if |s| > max {
      EvictDrops(s[1..], max);
    }
  }

  lemma AppendUnique<V>(s: Store<V>, e: Entry<V>)
    requires UniqueKeys(s)
    ensures UniqueKeys(Without(s, e.key) + [e])
  {
    FilterSpec(s, Except(e.key));
    var r := Without(s, e.key);
    forall i | 0 <= i < |r| ensures r[i].key != e.key {
      var x := r[i];
      assert x in r;
      assert Except(e.key)(x.key);
    }
  }

  /** A missed lookup leaves the store without the key. */
  lemma MissLeaves<V>(s: Store<V>, key: string, now: real)
    requires Live(s, key, now) == None
    ensures var after := AfterGet(s, key, now);
            after == Without(s, key) && Find(after, key) == None && Without(after, key) == after
  {
    FindSpec(s, key);
    if Find(s, key) == None {
      FilterAll(s, Except(key));
    }
    FilterSpec(s, Except(key));
    FindSpec(Without(s, key), key);
    FilterAll(Without(s, key), Except(key));
  }

  lemma MissTwice<V>(s: Store<V>, key: string, first: real, second: real)
    requires Live(s, key, first) == None
    ensures var after := AfterGet(s, key, first);
            Live(after, key, second) == None && Without(AfterGet(after, key, second), key) == Without(s, key)
  {
    MissLeaves(s, key, first);
  }

  /** A key is live exactly when the store holds an entry of it whose expiry is still to come. */
  lemma LiveExactly<V>(s: Store<V>, key: string, now: real)
    requires UniqueKeys(s)
    ensures Live(s, key, now) != None <==> exists e :: e in s && e.key == key && now < e.expiry
    ensures forall e :: e in s && e.key == key && now < e.expiry ==> Live(s, key, now) == Some(e)
  {
    FindSpec(s, key);
  }

  /** What a lookup leaves: no entry of an expired key, a live one as the newest, and all other entries. */
  lemma GetMeaning<V>(s: Store<V>, key: string, now: real)
    requires UniqueKeys(s)
    ensures var after := AfterGet(s, key, now);
            && (forall e :: e in s && e.key == key && now < e.expiry ==> after != [] && after[|after| - 1] == e)
            && ((forall e :: e in s && e.key == key ==> e.expiry <= now) ==> forall e :: e in after ==> e.key != key)
            && (forall e: Entry<V> :: e.key != key ==> (e in after <==> e in s))
  {
    FindSpec(s, key);
    FilterMembers(s, Except(key));
  }

  /** What a store leaves: the new entry as the newest and the only one of its key, and nothing new beside it. */
  lemma SetMeaning<V>(s: Store<V>, max: nat, key: string, value: V, expiry: real)
    ensures var after := AfterSet(s, max, key, value, expiry);
            && (max > 0 ==> after != [] && after[|after| - 1] == Entry(key, expiry, value))
            && (forall e :: e in after ==> e == Entry(key, expiry, value) || (e in s && e.key != key))
  {
    var full := Without(s, key) + [Entry(key, expiry, value)];
    EvictDrops(full, max);
    FilterMembers(s, Except(key));
    assert forall e :: e in Evict(full, max) ==> e in full;
  }

  /** The keys under a prefix, in store order. */
  function Doomed<V>(s: Store<V>, prefix: string): seq<string> {
    if s == [] then []
    else Doomed(s[..|s| - 1], prefix) + if prefix <= s[|s| - 1].key then [s[|s| - 1].key] else []
  }

  lemma DoomedNext<V>(s: Store<V>, i: nat, prefix: string)
    requires i < |s|
    ensures Doomed(s[..i + 1], prefix) == Doomed(s[..i], prefix) + if prefix <= s[i].key then [s[i].key] else []
  {
    assert s[..i + 1][..i] == s[..i];
  }

  lemma DropNext<V>(s: Store<V>, doomed: seq<string>, i: nat)
    requires i < |doomed|
    ensures Without(Filter(s, ExceptAll(doomed[..i])), doomed[i]) == Filter(s, ExceptAll(doomed[..i + 1]))
  {
    FilterTwice(s, doomed[..i], doomed[i]);
    assert doomed[..i + 1] == doomed[..i] + [doomed[i]];
  }

  lemma {:induction false} DoomedSpec<V>(s: Store<V>, prefix: string)
    ensures forall e :: e in s ==> (e.key in Doomed(s, prefix) <==> prefix <= e.key)
    ensures forall k :: k in Doomed(s, prefix) ==> prefix <= k
    ensures |Doomed(s, prefix)| + |AfterInvalidate(s, prefix)| == |s|
  {
    if s != [] {
      var n := |s| - 1;
      DoomedSpec(s[..n], prefix);
      assert s == s[..n] + [s[n]];
    }
  }

  lemma DoomedDropped<V>(s: Store<V>, prefix: string)
    ensures Filter(s, ExceptAll(Doomed(s, prefix))) == AfterInvalidate(s, prefix)
    ensures |Doomed(s, prefix)| == |s| - |AfterInvalidate(s, prefix)|
  {
    DoomedSpec(s, prefix);
    FilterSame(s, ExceptAll(Doomed(s, prefix)), NotUnder(prefix));
  }

  /** The cache object. Each method body runs under the cache's lock; `now` is its clock reading. */
  class Cache<V(==)> {
    const ttl: real
    const maxEntries: nat
    var store: Store<V>
    var hits: nat
    var misses: nat

    ghost predicate Valid()
      reads this
    {
      UniqueKeys(store) && |store| <= maxEntries
    }

    constructor (ttl: real, maxEntries: nat)
      ensures Valid() && store == [] && hits == misses == 0
      ensures this.ttl == ttl && this.maxEntries == maxEntries
    {
      this.ttl, this.maxEntries := ttl, maxEntries;
      store, hits, misses := [], 0, 0;
    }

    method Get(key: string, now: real) returns (value: Option<V>)
      requires Valid()
      modifies this
      ensures Valid()
      ensures store == AfterGet(old(store), key, now)
      ensures value == if Live(old(store), key, now) == None then None else Some(Find(old(store), key).value.value)
      ensures value != None <==> exists e :: e in old(store) && e.key == key && now < e.expiry
      ensures forall e :: e in old(store) && e.key == key && now < e.expiry ==>
                value == Some(e.value) && store != [] && store[|store| - 1] == e
      ensures value == None ==> forall e :: e in store ==> e.key != key
      ensures forall e: Entry<V> :: e.key != key ==> (e in store <==> e in old(store))
      ensures hits == old(hits) + (if value == None then 0 else 1)
      ensures misses == old(misses) + (if value == None then 1 else 0)
    {
      var entry := Find(store, key);
      LiveExactly(store, key, now);
      GetMeaning(store, key, now);
      WithoutOne(store, key);
      FilterSpec(store, Except(key));
      FindSpec(store, key);
      if entry == None {
        misses := misses + 1;
        return None;
      }
      if now >= entry.value.expiry {
        store := Without(store, key);
        misses := misses + 1;
        return None;
      }
      AppendUnique(store, entry.value);
      store := Without(store, key) + [entry.value];
      hits := hits + 1;
      return Some(entry.value.value);
    }

    method Set(key: string, value: V, ttl: Option<real>, now: real)
      requires Valid()
      modifies this`store
      ensures Valid()
      ensures store == AfterSet(old(store), maxEntries, key, value, now + if ttl == None then this.ttl else ttl.value)
      ensures var e := Entry(key, now + (if ttl == None then this.ttl else ttl.value), value);
              && (maxEntries > 0 ==> store != [] && store[|store| - 1] == e)
              && (forall x :: x in store ==> x == e || (x in old(store) && x.key != key))
    {
      var lifetime := if ttl == None then this.ttl else ttl.value;
      SetMeaning(store, maxEntries, key, value, now + lifetime);
      AppendUnique(store, Entry(key, now + lifetime, value));
      store := Without(store, key) + [Entry(key, now + lifetime, value)];
      ghost var full := store;
      while |store| > maxEntries
        invariant UniqueKeys(store)
        invariant Evict(store, maxEntries) == Evict(full, maxEntries)
      {
        store := store[1..];
      }
    }

    /** The read-through lookup when no other thread interferes; `now` holds its up to three clock readings. */
    method GetOrSet(key: string, producer: () -> V, now: (real, real, real)) returns (value: V)
      requires Valid()
      modifies this
      ensures Valid()
      ensures Live(old(store), key, now.0) != None ==>
                value == Find(old(store), key).value.value && store == AfterGet(old(store), key, now.0)
      ensures Live(old(store), key, now.0) == None ==>
                value == producer() && store == AfterSet(old(store), maxEntries, key, value, now.2 + ttl)
      ensures forall e :: e in old(store) && e.key == key && now.0 < e.expiry ==> value == e.value
      ensures (forall e :: e in old(store) && e.key == key ==> e.expiry <= now.0) ==>
                value == producer() && (maxEntries > 0 ==> store != [] && store[|store| - 1] == Entry(key, now.2 + ttl, value))
    {
      LiveExactly(store, key, now.0);
      var cached := Get(key, now.0);
      if cached != None {
        return cached.value;
      }
      MissTwice(old(store), key, now.0, now.1);
      cached := Get(key, now.1);
      match cached
      case Some(rebuilt) =>
        value := rebuilt;
      case None =>
        value := producer();
        Set(key, value, None, now.2);
    }

    method Invalidate(prefix: string) returns (dropped: nat)
      requires Valid()
      modifies this`store
      ensures Valid()
      ensures store == AfterInvalidate(old(store), prefix)
      ensures dropped == |old(store)| - |store|
      ensures forall e :: e in store ==> e in old(store) && !(prefix <= e.key)
      ensures forall e :: e in old(store) && !(prefix <= e.key) ==> e in store
    {
      ghost var before := store;
      var doomed: seq<string> := [];
      for i := 0 to |store|
        invariant store == before
        invariant doomed == Doomed(before[..i], prefix)
      {
        DoomedNext(store, i, prefix);
        if prefix <= store[i].key {
          doomed := doomed + [store[i].key];
        }
      }
      assert before[..|before|] == before;
      dropped := |doomed|;
      FilterAll(before, ExceptAll([]));
      assert doomed[..0] == [];
      for i := 0 to |doomed|
        invariant store == Filter(before, ExceptAll(doomed[..i]))
      {
        DropNext(before, doomed, i);
        store := Without(store, doomed[i]);
      }
      assert doomed[..|doomed|] == doomed;
      DoomedDropped(before, prefix);
      FilterSpec(before, NotUnder(prefix));
    }

    method Clear()
      modifies this`store
      ensures store == []
    {
      store := [];
    }
  }

  lemma {:induction false} FilterSame<V>(s: Store<V>, f: string -> bool, g: string -> bool)
    requires forall e :: e in s ==> f(e.key) == g(e.key)
    ensures Filter(s, f) == Filter(s, g)
  {
    if s != [] {
      FilterSame(s[..|s| - 1], f, g);
    }
  }

  lemma {:induction false} FilterTwice<V>(s: Store<V>, doomed: seq<string>, key: string)
    ensures Without(Filter(s, ExceptAll(doomed)), key) == Filter(s, ExceptAll(doomed + [key]))
  {
    if s != [] {
      var n := |s| - 1;
      FilterTwice(s[..n], doomed, key);
      var last := if s[n].key !in doomed then [s[n]] else [];
      FilterAppend(Filter(s[..n], ExceptAll(doomed)), last, Except(key));
      if last != [] {
        assert Filter(last[..0], Except(key)) == [];
      }
    }
  }
}
