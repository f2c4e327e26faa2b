/** The named caches and the busts that follow writes: which reads are fresh afterwards. */
module CacheBusts {
  import opened Options
  import opened TtlCache
  import opened CacheKeys

  datatype CacheName = Products | Suppliers | Dashboard | Reports | Global | Api | Landing | Monitoring
  datatype Write = ProductWrite | SupplierWrite | MovementWrite | OrderWrite | SettingsWrite | EveryWrite
  type Caches = map<CacheName, Store<int>>

  function MaxEntries(c: CacheName): nat {
    match c
    case Products => 100 case Suppliers => 100 case Dashboard => 20 case Reports => 50
    case Global => 20 case Api => 100 case Landing => 10 case Monitoring => 10
  }

  function Lifetime(c: CacheName): real {
    match c
    case Products => 300.0 case Suppliers => 300.0 case Dashboard => 600.0 case Reports => 7200.0
    case Global => 600.0 case Api => 120.0 case Landing => 600.0 case Monitoring => 60.0
  }

  /** The invalidations each bust makes, in order. */
  function Busts(w: Write): seq<(CacheName, string)> {
    match w
    case ProductWrite =>
      [(Products, ""), (Dashboard, "dashboard:"), (Reports, ""), (Global, ""), (Api, "product"), (Landing, "")]
    case SupplierWrite => [(Suppliers, ""), (Reports, "reports:"), (Api, "suppliers"), (Landing, "")]
    case MovementWrite =>
      [(Products, ""), (Dashboard, "dashboard:"), (Reports, "reports:"), (Global, ""), (Api, "movements")]
    case OrderWrite =>
      [(Products, ""), (Dashboard, "dashboard:"), (Reports, "reports:"), (Global, ""),
       (Api, "purchase_orders"), (Api, "purchase_orders:board")]
    case SettingsWrite => [(Global, ""), (Api, "settings")]
    case EveryWrite =>
      [(Products, ""), (Suppliers, ""), (Dashboard, ""), (Reports, ""), (Global, ""), (Api, ""), (Landing, ""), (Monitoring, "")]
  }

  predicate Hit(busts: seq<(CacheName, string)>, c: CacheName, key: string) {
    exists i :: 0 <= i < |busts| && busts[i].0 == c && busts[i].1 <= key
  }

  /** The write's bust reaches `key` of cache `c`. */
  predicate Covered(w: Write, c: CacheName, key: string) {
    Hit(Busts(w), c, key)
  }

  function At(caches: Caches, c: CacheName): Store<int> {
    if c in caches then caches[c] else []
  }

  function Busted(caches: Caches, busts: seq<(CacheName, string)>): Caches {
    if busts == [] then caches
    else
      var before := Busted(caches, busts[..|busts| - 1]);
      var (c, prefix) := busts[|busts| - 1];
      before[c := AfterInvalidate(At(before, c), prefix)]
  }

  function Entries(caches: Caches): int {
    |At(caches, Products)| + |At(caches, Suppliers)| + |At(caches, Dashboard)| + |At(caches, Reports)|
    + |At(caches, Global)| + |At(caches, Api)| + |At(caches, Landing)| + |At(caches, Monitoring)|
  }

  /** The counts of the invalidations, added up. */
  function Dropped(caches: Caches, busts: seq<(CacheName, string)>): int {
    if busts == [] then 0
    else
      var c := busts[|busts| - 1].0;
      Dropped(caches, busts[..|busts| - 1])
      + |At(Busted(caches, busts[..|busts| - 1]), c)| - |At(Busted(caches, busts), c)|
  }

  lemma {:induction false} DroppedEntries(caches: Caches, busts: seq<(CacheName, string)>)
    ensures Dropped(caches, busts) == Entries(caches) - Entries(Busted(caches, busts))
  {
    if busts != [] {
      DroppedEntries(caches, busts[..|busts| - 1]);
      var before := Busted(caches, busts[..|busts| - 1]);
      var (c, prefix) := busts[|busts| - 1];
      EntriesChange(before, c, AfterInvalidate(At(before, c), prefix));
    }
  }

  lemma EntriesChange(caches: Caches, c: CacheName, store: Store<int>)
    ensures Entries(caches[c := store]) == Entries(caches) - |At(caches, c)| + |store|
  {
  }

  lemma BustNext(caches: Caches, busts: seq<(CacheName, string)>, i: nat)
    requires i < |busts|
    ensures var before, after := Busted(caches, busts[..i]), Busted(caches, busts[..i + 1]);
            after == before[busts[i].0 := AfterInvalidate(At(before, busts[i].0), busts[i].1)]
            && Dropped(caches, busts[..i + 1]) ==
               Dropped(caches, busts[..i]) + |At(before, busts[i].0)| - |At(after, busts[i].0)|
  {
    assert busts[..i + 1][..i] == busts[..i];
  }

  /** The eight module-level cache objects. */
  class NamedCaches {
    const caches: map<CacheName, Cache<int>>

    constructor (caches: map<CacheName, Cache<int>>)
      ensures this.caches == caches
    {
      this.caches := caches;
    }

    ghost predicate Valid()
      reads this, caches.Values
    {
      && (forall c: CacheName :: c in caches && caches[c].Valid())
      && (forall c: CacheName, d: CacheName :: c in caches && d in caches && c != d ==> caches[c] != caches[d])
    }

    ghost function View(): Caches
      reads this, caches.Values
    {
      map c | c in caches :: caches[c].store
    }

    method Invalidate(c: CacheName, prefix: string) returns (n: nat)
      requires Valid()
      modifies caches.Values
      ensures Valid()
      ensures View() == old(View())[c := AfterInvalidate(At(old(View()), c), prefix)]
      ensures n == |At(old(View()), c)| - |At(View(), c)|
    {
      assert caches[c] in caches.Values;
      n := caches[c].Invalidate(prefix);
      forall d: CacheName | d != c ensures caches[d].store == old(caches[d].store) && caches[d].Valid() {
        assert caches[d] != caches[c];
      }
    }

    method InvalidateAll(busts: seq<(CacheName, string)>) returns (n: int)
      requires Valid()
      modifies caches.Values
      ensures Valid()
      ensures View() == Busted(old(View()), busts)
      ensures n == Dropped(old(View()), busts)
    {
      ghost var was := View();
      n := 0;
      for i := 0 to |busts|
        invariant Valid()
        invariant View() == Busted(was, busts[..i])
        invariant n == Dropped(was, busts[..i])
      {
        BustNext(was, busts, i);
        var more := Invalidate(busts[i].0, busts[i].1);
        n := n + more;
      }
      assert busts[..|busts|] == busts;
    }

    /** One bust; the bust functions differ only in their list of invalidations. */
    method Bust(w: Write) returns (n: int)
      requires Valid()
      modifies caches.Values
      ensures Valid()
      ensures View() == Busted(old(View()), Busts(w))
      ensures n == Entries(old(View())) - Entries(View())
    {
      n := InvalidateAll(Busts(w));
      DroppedEntries(old(View()), Busts(w));
    }
  }

  // ---- freshness over sequential runs ----

  /** The caches together with the number of writes so far and the number at which each kind last happened.
      A cached value is stamped with the number of writes its producer could see. */
  datatype World = World(caches: Caches, writes: nat, last: map<Write, nat>) {
    function Last(w: Write): nat { if w in last then last[w] else 0 }
  }

  datatype Op =
    | Read(cache: CacheName, key: string, now: (real, real, real))
    | Write(kind: Write)
    | Peek(cache: CacheName, key: string, now: (real, real, real))
    | Put(cache: CacheName, key: string, expiry: real)
    | Drop(cache: CacheName, prefix: string)

  function Answer(s: World, c: CacheName, key: string, now: (real, real, real)): int {
    var e := Live(At(s.caches, c), key, now.0);
    if e != None then e.value.value else s.writes
  }

  function With(s: World, c: CacheName, store: Store<int>): World {
    s.(caches := s.caches[c := store])
  }

  function Do(s: World, op: Op): World {
    match op
    case Read(c, key, now) =>
      var store := At(s.caches, c);
      With(s, c, if Live(store, key, now.0) != None then AfterGet(store, key, now.0)
                 else AfterSet(store, MaxEntries(c), key, s.writes, now.2 + Lifetime(c)))
    case Write(w) => World(Busted(s.caches, Busts(w)), s.writes + 1, s.last[w := s.writes + 1])
    case Peek(c, key, now) => With(s, c, AfterGet(At(s.caches, c), key, now.0))
    case Put(c, key, expiry) => With(s, c, AfterSet(At(s.caches, c), MaxEntries(c), key, s.writes, expiry))
    case Drop(c, prefix) => With(s, c, AfterInvalidate(At(s.caches, c), prefix))
  }

  function Run(ops: seq<Op>): World {
    if ops == [] then World(map[], 0, map[]) else Do(Run(ops[..|ops| - 1]), ops[|ops| - 1])
  }

  /** The entry of cache `c` was produced after the last write whose bust reaches it. */
  predicate EntryFresh(s: World, c: CacheName, e: Entry<int>) {
    forall w :: Covered(w, c, e.key) ==> e.value >= s.Last(w)
  }

  ghost predicate Fresh(s: World) {
    && (forall w :: s.Last(w) <= s.writes)
    && (forall c :: UniqueKeys(At(s.caches, c)))
    && (forall c, e :: e in At(s.caches, c) ==> EntryFresh(s, c, e))
  }

  lemma GetMembers(store: Store<int>, key: string, now: real)
    requires UniqueKeys(store)
    ensures UniqueKeys(AfterGet(store, key, now))
    ensures forall e :: e in AfterGet(store, key, now) ==> e in store
  {
    FilterSpec(store, Except(key));
    FindSpec(store, key);
    if Find(store, key) != None {
      AppendUnique(store, Find(store, key).value);
    }
  }

  lemma SetMembers(store: Store<int>, max: nat, x: Entry<int>)
    requires UniqueKeys(store)
    ensures UniqueKeys(AfterSet(store, max, x.key, x.value, x.expiry))
    ensures forall e :: e in AfterSet(store, max, x.key, x.value, x.expiry) ==> e in store || e == x
  {
    FilterSpec(store, Except(x.key));
    AppendUnique(store, x);
    EvictDrops(Without(store, x.key) + [x], max);
  }

  lemma HitLast(busts: seq<(CacheName, string)>, c: CacheName, key: string)
    requires busts != []
    ensures var n := |busts| - 1;
            Hit(busts, c, key) <==> Hit(busts[..n], c, key) || (busts[n].0 == c && busts[n].1 <= key)
  {
  }

  lemma BustLast(caches: Caches, busts: seq<(CacheName, string)>, c: CacheName)
    requires busts != []
    ensures var n := |busts| - 1;
            var before := At(Busted(caches, busts[..n]), c);
            At(Busted(caches, busts), c) == if busts[n].0 == c then Filter(before, NotUnder(busts[n].1)) else before
  {
  }

  lemma {:induction false} BustedMember(caches: Caches, busts: seq<(CacheName, string)>, c: CacheName, e: Entry<int>)
    ensures e in At(Busted(caches, busts), c) <==> e in At(caches, c) && !Hit(busts, c, e.key)
  {
    if busts != [] {
      var n := |busts| - 1;
      BustedMember(caches, busts[..n], c, e);
      BustLast(caches, busts, c);
      FilterMembers(At(Busted(caches, busts[..n]), c), NotUnder(busts[n].1));
      HitLast(busts, c, e.key);
    }
  }

  lemma {:induction false} BustedUnique(caches: Caches, busts: seq<(CacheName, string)>, c: CacheName)
    requires UniqueKeys(At(caches, c))
    ensures UniqueKeys(At(Busted(caches, busts), c))
  {
    if busts != [] {
      var n := |busts| - 1;
      BustedUnique(caches, busts[..n], c);
      BustLast(caches, busts, c);
      FilterUnique(At(Busted(caches, busts[..n]), c), NotUnder(busts[n].1));
    }
  }

  /** A bust keeps exactly the entries its invalidations do not reach. */
  lemma BustedMembers(caches: Caches, busts: seq<(CacheName, string)>, c: CacheName)
    ensures forall e :: e in At(Busted(caches, busts), c) ==> e in At(caches, c) && !Hit(busts, c, e.key)
    ensures forall e :: e in At(caches, c) && !Hit(busts, c, e.key) ==> e in At(Busted(caches, busts), c)
    ensures UniqueKeys(At(caches, c)) ==> UniqueKeys(At(Busted(caches, busts), c))
  {
    forall e ensures e in At(Busted(caches, busts), c) <==> e in At(caches, c) && !Hit(busts, c, e.key) {
      BustedMember(caches, busts, c, e);
    }
    if UniqueKeys(At(caches, c)) {
      BustedUnique(caches, busts, c);
    }
  }

  lemma PutFresh(s: World, c: CacheName, store: Store<int>)
    requires Fresh(s) && UniqueKeys(store)
    requires forall e :: e in store ==> e in At(s.caches, c) || e.value == s.writes
    ensures Fresh(With(s, c, store))
  {
    var t := With(s, c, store);
    assert forall w :: t.Last(w) == s.Last(w);
    assert forall d :: At(t.caches, d) == if d == c then store else At(s.caches, d);
    forall d, e | e in At(t.caches, d) ensures EntryFresh(t, d, e) {
      if e in At(s.caches, d) {
        assert EntryFresh(s, d, e);
      }
    }
  }

  lemma WriteFresh(s: World, w: Write)
    requires Fresh(s)
    ensures Fresh(Do(s, Op.Write(w)))
  {
    var t := Do(s, Op.Write(w));
    assert forall v :: t.Last(v) == if v == w then s.writes + 1 else s.Last(v);
    forall c ensures UniqueKeys(At(t.caches, c)) {
      BustedMembers(s.caches, Busts(w), c);
    }
    forall c, e | e in At(t.caches, c) ensures EntryFresh(t, c, e) {
      BustedMembers(s.caches, Busts(w), c);
      assert EntryFresh(s, c, e);
    }
  }

  lemma DoFresh(s: World, op: Op)
    requires Fresh(s)
    ensures Fresh(Do(s, op))
  {
    match op
    case Read(c, key, now) =>
      var store := At(s.caches, c);
      GetMembers(store, key, now.0);
      SetMembers(store, MaxEntries(c), Entry(key, now.2 + Lifetime(c), s.writes));
      PutFresh(s, c, At(Do(s, op).caches, c));
    case Write(w) => WriteFresh(s, w);
    case Peek(c, key, now) =>
      GetMembers(At(s.caches, c), key, now.0);
      PutFresh(s, c, At(Do(s, op).caches, c));
    case Put(c, key, expiry) =>
      SetMembers(At(s.caches, c), MaxEntries(c), Entry(key, expiry, s.writes));
      PutFresh(s, c, At(Do(s, op).caches, c));
    case Drop(c, prefix) =>
      FilterSpec(At(s.caches, c), NotUnder(prefix));
      PutFresh(s, c, At(Do(s, op).caches, c));
  }

  lemma {:induction false} RunFresh(ops: seq<Op>)
    ensures Fresh(Run(ops))
  {
    if ops != [] {
      RunFresh(ops[..|ops| - 1]);
      DoFresh(Run(ops[..|ops| - 1]), ops[|ops| - 1]);
    }
  }

  /** In every sequential run, a read answers with a value produced after the last write whose bust reaches its key. */
  lemma ReadsAreFresh(ops: seq<Op>, c: CacheName, key: string, now: (real, real, real), w: Write)
    requires Covered(w, c, key)
    ensures Answer(Run(ops), c, key, now) >= Run(ops).Last(w)
  {
    RunFresh(ops);
    FreshAnswers(Run(ops), c, key, now, w);
  }

  lemma FreshAnswers(s: World, c: CacheName, key: string, now: (real, real, real), w: Write)
    requires Fresh(s) && Covered(w, c, key)
    ensures Answer(s, c, key, now) >= s.Last(w)
  {
    FindSpec(At(s.caches, c), key);
    if Live(At(s.caches, c), key, now.0) != None {
      var e := Find(At(s.caches, c), key).value;
      assert e in At(s.caches, c);
      assert EntryFresh(s, c, e);
    }
  }

  /** A read of `key` right after the write `w` sees that write. */
  ghost predicate ReadAfterIsFresh(s: World, w: Write, c: CacheName, key: string, now: (real, real, real)) {
    Answer(Do(s, Op.Write(w)), c, key, now) == s.writes + 1
  }

  /** It does so after every run, whatever is cached, exactly when the write's bust reaches the key. */
  lemma FreshExactly(w: Write, c: CacheName, key: string)
    ensures (forall ops, now :: ReadAfterIsFresh(Run(ops), w, c, key, now)) <==> Covered(w, c, key)
  {
    if Covered(w, c, key) {
      forall ops, now ensures ReadAfterIsFresh(Run(ops), w, c, key, now) {
        MissAfterBust(Run(ops), w, c, key, now);
      }
    } else {
      StaleRead(w, c, key);
    }
  }

  lemma MissAfterBust(s: World, w: Write, c: CacheName, key: string, now: (real, real, real))
    requires Covered(w, c, key)
    ensures ReadAfterIsFresh(s, w, c, key, now)
  {
    BustedMembers(s.caches, Busts(w), c);
    FindSpec(At(Busted(s.caches, Busts(w)), c), key);
  }

  /** The stale read: the key is cached, the write's bust misses it, and the cached value is served again. */
  lemma StaleRead(w: Write, c: CacheName, key: string)
    requires !Covered(w, c, key)
    ensures var now := (0.0, 0.0, 0.0); !ReadAfterIsFresh(Run([Read(c, key, now)]), w, c, key, now)
  {
    var now := (0.0, 0.0, 0.0);
    var ops := [Read(c, key, now)];
    var e := Entry(key, Lifetime(c), 0);
    ReadIntoEmpty(c, key);
    var s := Run(ops);
    BustedMembers(s.caches, Busts(w), c);
    var store := At(Busted(s.caches, Busts(w)), c);
    assert UniqueKeys(At(s.caches, c));
    assert e in At(s.caches, c);
    FindSpec(store, key);
  }

  lemma ReadIntoEmpty(c: CacheName, key: string)
    ensures var s := Run([Read(c, key, (0.0, 0.0, 0.0))]);
            At(s.caches, c) == [Entry(key, Lifetime(c), 0)] && s.writes == 0
  {
  }

  /** Every key of the product cache is reached by product, movement and order writes. */
  lemma ProductsCacheReached(w: Write, key: string)
    ensures Covered(w, Products, key) <==> w.ProductWrite? || w.MovementWrite? || w.OrderWrite? || w.EveryWrite?
  {
    var b := Busts(w);
    assert (b[0].0 == Products && b[0].1 <= key) || forall i :: 0 <= i < |b| ==> b[i].0 != Products;
  }

  lemma PrefixedKey(prefix: string, kwargs: Kwargs)
    requires prefix != ""
    ensures prefix + ":" <= MakeKey(prefix, kwargs)
  {
  }

  /** A report key made with the `reports` prefix is reached by every write but a settings change. */
  lemma ReportsReached(w: Write, kwargs: Kwargs)
    ensures Covered(w, Reports, MakeKey("reports", kwargs)) <==> !w.SettingsWrite?
  {
    var key := MakeKey("reports", kwargs);
    PrefixedKey("reports", kwargs);
    assert "reports" + ":" == "reports:";
    var b := Busts(w);
    match w
    case ProductWrite => assert b[2].0 == Reports && b[2].1 <= key;
    case SupplierWrite => assert b[1].0 == Reports && b[1].1 <= key;
    case MovementWrite => assert b[2].0 == Reports && b[2].1 <= key;
    case OrderWrite => assert b[2].0 == Reports && b[2].1 <= key;
    case SettingsWrite => assert forall i :: 0 <= i < |b| ==> b[i].0 != Reports;
    case EveryWrite => assert b[3].0 == Reports && b[3].1 <= key;
  }

  /** The API's product lists are reached by product writes only: a movement or an order leaves them stale. */
  lemma ApiProductsReached(w: Write, kwargs: Kwargs)
    ensures Covered(w, Api, MakeKey("products", kwargs)) <==> w.ProductWrite? || w.EveryWrite?
  {
    var key := MakeKey("products", kwargs);
    PrefixedKey("products", kwargs);
    var p := "products" + ":";
    assert key[..|p|] == p;
    assert key[0] == 'p' && key[1] == 'r';
    assert "product" == p[..7] == key[..7];
    var b := Busts(w);
    match w
    case ProductWrite => assert b[4].0 == Api && b[4].1 <= key;
    case SupplierWrite => assert b[2].1[0] == 's';
    case MovementWrite => assert b[4].1[0] == 'm';
    case OrderWrite => assert b[4].1[1] == 'u' && b[5].1[1] == 'u';
    case SettingsWrite => assert b[1].1[0] == 's';
    case EveryWrite => assert b[5].0 == Api && b[5].1 <= key;
  }

  lemma HitAt(w: Write, c: CacheName, key: string, i: nat)
    requires i < |Busts(w)| && Busts(w)[i].0 == c && Busts(w)[i].1 <= key
    ensures Covered(w, c, key)
  {
  }

  /** Every key of the supplier, landing and monitoring caches is reached by the writes named here, and no other. */
  lemma SuppliersReached(w: Write, key: string)
    ensures Covered(w, Suppliers, key) <==> w.SupplierWrite? || w.EveryWrite?
  {
    match w
    case SupplierWrite => HitAt(w, Suppliers, key, 0);
    case EveryWrite => HitAt(w, Suppliers, key, 1);
    case _ =>
  }

  lemma LandingReached(w: Write, key: string)
    ensures Covered(w, Landing, key) <==> w.ProductWrite? || w.SupplierWrite? || w.EveryWrite?
  {
    match w
    case ProductWrite => HitAt(w, Landing, key, 5);
    case SupplierWrite => HitAt(w, Landing, key, 3);
    case EveryWrite => HitAt(w, Landing, key, 6);
    case _ =>
  }

  lemma MonitoringReached(w: Write, key: string)
    ensures Covered(w, Monitoring, key) <==> w.EveryWrite?
  {
    if w.EveryWrite? {
      HitAt(w, Monitoring, key, 7);
    }
  }

  /** The global cache is reached by every write but a supplier's. */
  lemma GlobalReached(w: Write, key: string)
    ensures Covered(w, Global, key) <==> !w.SupplierWrite?
  {
    match w
    case ProductWrite => HitAt(w, Global, key, 3);
    case MovementWrite => HitAt(w, Global, key, 3);
    case OrderWrite => HitAt(w, Global, key, 3);
    case SettingsWrite => HitAt(w, Global, key, 0);
    case EveryWrite => HitAt(w, Global, key, 4);
    case SupplierWrite =>
  }

  /** Dashboard keys under their prefix are reached by product, movement and order writes. */
  lemma DashboardReached(w: Write, key: string)
    requires "dashboard:" <= key
    ensures Covered(w, Dashboard, key) <==> w.ProductWrite? || w.MovementWrite? || w.OrderWrite? || w.EveryWrite?
  {
    match w
    case ProductWrite => HitAt(w, Dashboard, key, 1);
    case SupplierWrite =>
    case MovementWrite => HitAt(w, Dashboard, key, 1);
    case OrderWrite => HitAt(w, Dashboard, key, 1);
    case SettingsWrite =>
    case EveryWrite => HitAt(w, Dashboard, key, 2);
  }

  /** The API's other lists are reached by the writes of their own kind. */
  lemma ApiListsReached(key: string)
    ensures "suppliers" <= key ==> Covered(SupplierWrite, Api, key)
    ensures "movements" <= key ==> Covered(MovementWrite, Api, key)
    ensures "purchase_orders" <= key ==> Covered(OrderWrite, Api, key)
    ensures "settings" <= key ==> Covered(SettingsWrite, Api, key)
  {
    if "suppliers" <= key {
      HitAt(SupplierWrite, Api, key, 2);
    }
    if "movements" <= key {
      HitAt(MovementWrite, Api, key, 4);
    }
    if "purchase_orders" <= key {
      HitAt(OrderWrite, Api, key, 4);
    }
    if "settings" <= key {
      HitAt(SettingsWrite, Api, key, 1);
    }
  }

  // ---- how long a stale answer can last ----

  /** Entries of cache `c` produced before write number `writes + 1` expire by `until`. */
  ghost predicate Aged(s: World, c: CacheName, writes: int, until: real) {
    UniqueKeys(At(s.caches, c)) && forall e :: e in At(s.caches, c) ==> e.value > writes || e.expiry <= until
  }

  /** What `op` stores in `c` expires by `until`. */
  predicate Early(op: Op, c: CacheName, until: real) {
    && (op.Read? && op.cache == c ==> op.now.2 + Lifetime(c) <= until)
    && (op.Put? && op.cache == c ==> op.expiry <= until)
  }

  lemma StoreAged(s: World, d: CacheName, store: Store<int>, c: CacheName, writes: int, until: real)
    requires Aged(s, c, writes, until)
    requires d == c ==> UniqueKeys(store)
    requires d == c ==> forall e :: e in store ==> e in At(s.caches, c) || e.value > writes || e.expiry <= until
    ensures Aged(With(s, d, store), c, writes, until)
  {
    assert At(With(s, d, store).caches, c) == if d == c then store else At(s.caches, c);
  }

  lemma SetAged(s: World, d: CacheName, x: Entry<int>, c: CacheName, writes: int, until: real)
    requires Aged(s, c, writes, until) && (d == c ==> x.value > writes || x.expiry <= until)
    ensures Aged(With(s, d, AfterSet(At(s.caches, d), MaxEntries(d), x.key, x.value, x.expiry)), c, writes, until)
  {
    if d == c {
      SetMembers(At(s.caches, c), MaxEntries(c), x);
    }
    StoreAged(s, d, AfterSet(At(s.caches, d), MaxEntries(d), x.key, x.value, x.expiry), c, writes, until);
  }

  lemma GetAged(s: World, d: CacheName, key: string, now: real, c: CacheName, writes: int, until: real)
    requires Aged(s, c, writes, until)
    ensures Aged(With(s, d, AfterGet(At(s.caches, d), key, now)), c, writes, until)
  {
    if d == c {
      GetMembers(At(s.caches, c), key, now);
    }
    StoreAged(s, d, AfterGet(At(s.caches, d), key, now), c, writes, until);
  }

  lemma DropAged(s: World, d: CacheName, prefix: string, c: CacheName, writes: int, until: real)
    requires Aged(s, c, writes, until)
    ensures Aged(With(s, d, AfterInvalidate(At(s.caches, d), prefix)), c, writes, until)
  {
    if d == c {
      FilterSpec(At(s.caches, c), NotUnder(prefix));
    }
    StoreAged(s, d, AfterInvalidate(At(s.caches, d), prefix), c, writes, until);
  }

  lemma DoAged(s: World, op: Op, c: CacheName, writes: int, until: real)
    requires Aged(s, c, writes, until) && (s.writes > writes || Early(op, c, until))
    ensures Aged(Do(s, op), c, writes, until) && Do(s, op).writes >= s.writes
  {
    match op
    case Read(d, key, now) =>
      GetAged(s, d, key, now.0, c, writes, until);
      SetAged(s, d, Entry(key, now.2 + Lifetime(d), s.writes), c, writes, until);
    case Write(w) => BustedMembers(s.caches, Busts(w), c);
    case Peek(d, key, now) => GetAged(s, d, key, now.0, c, writes, until);
    case Put(d, key, expiry) => SetAged(s, d, Entry(key, expiry, s.writes), c, writes, until);
    case Drop(d, prefix) => DropAged(s, d, prefix, c, writes, until);
  }

  lemma {:induction false} EarlyRun(ops: seq<Op>, c: CacheName, writes: int, until: real)
    requires forall i :: 0 <= i < |ops| ==> Early(ops[i], c, until)
    ensures Aged(Run(ops), c, writes, until)
  {
    if ops != [] {
      EarlyRun(ops[..|ops| - 1], c, writes, until);
      DoAged(Run(ops[..|ops| - 1]), ops[|ops| - 1], c, writes, until);
    }
  }

  function RunFrom(s: World, ops: seq<Op>): World {
    if ops == [] then s else Do(RunFrom(s, ops[..|ops| - 1]), ops[|ops| - 1])
  }

  lemma {:induction false} LaterRun(s: World, ops: seq<Op>, c: CacheName, writes: int, until: real)
    requires Aged(s, c, writes, until) && s.writes > writes
    ensures Aged(RunFrom(s, ops), c, writes, until) && RunFrom(s, ops).writes > writes
  {
    if ops != [] {
      LaterRun(s, ops[..|ops| - 1], c, writes, until);
      DoAged(RunFrom(s, ops[..|ops| - 1]), ops[|ops| - 1], c, writes, until);
    }
  }

  /** Even where its bust does not reach, a write is seen by every read that comes a lifetime of the cache or more
      after the last read before it, whatever happens in between. */
  lemma StaleEnds(ops: seq<Op>, w: Write, more: seq<Op>, c: CacheName, key: string, now: (real, real, real), t: real)
    requires forall i :: 0 <= i < |ops| ==> Early(ops[i], c, t + Lifetime(c))
    requires now.0 >= t + Lifetime(c)
    ensures Answer(RunFrom(Do(Run(ops), Op.Write(w)), more), c, key, now) > Run(ops).writes
  {
    var writes, until := Run(ops).writes, t + Lifetime(c);
    EarlyRun(ops, c, writes, until);
    DoAged(Run(ops), Op.Write(w), c, writes, until);
    LaterRun(Do(Run(ops), Op.Write(w)), more, c, writes, until);
    var s := RunFrom(Do(Run(ops), Op.Write(w)), more);
    LiveExactly(At(s.caches, c), key, now.0);
    FindSpec(At(s.caches, c), key);
  }

  /** For the lists of the API that is two minutes. */
  lemma ApiStaleTwoMinutes(ops: seq<Op>, w: Write, more: seq<Op>, key: string, now: (real, real, real), t: real)
    requires forall i :: 0 <= i < |ops| ==> !ops[i].Put? && (ops[i].Read? ==> ops[i].now.2 <= t)
    requires now.0 >= t + 120.0
    ensures Answer(RunFrom(Do(Run(ops), Op.Write(w)), more), Api, key, now) > Run(ops).writes
  {
    forall i | 0 <= i < |ops| ensures Early(ops[i], Api, t + Lifetime(Api)) {
      assert !ops[i].Put? && (ops[i].Read? ==> ops[i].now.2 <= t);
    }
    StaleEnds(ops, w, more, Api, key, now, t);
  }
}
