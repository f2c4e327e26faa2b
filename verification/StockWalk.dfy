/** The backward stock walk behind `fact_inventory_daily`: from the current stock, undo the IN and OUT units
    of every later day. It reads soft-deleted rows too, because deleting a row does not give its units back. */
module StockWalk {
  import opened Options
  import opened Sums
  import opened StockLedger
  import opened Etl
  import opened EtlConvergence

  /** The walk's daily net counts only IN and OUT. */
  function Net(m: Movement): int {
    match m.mtype
    case IN => m.quantity
    case OUT => -m.quantity
    case _ => 0
  }

  /** IN minus OUT units of product `p` on the days lo..hi. */
  function NetBetween(movements: seq<Movement>, p: int, lo: int, hi: int): int {
    Sum(movements, (m: Movement) => if m.product == p && lo <= m.day <= hi then Net(m) else 0)
  }

  /** Ledger balance at the end of day `d`. */
  function Balance(opening: int, movements: seq<Movement>, p: int, d: int): int {
    opening + Sum(movements, (m: Movement) => if m.product == p && m.day <= d then Delta(m.mtype, m.quantity) else 0)
  }

  /** Stock once every row is in. */
  function Current(opening: int, movements: seq<Movement>, p: int): int {
    opening + Sum(movements, (m: Movement) => if m.product == p then Delta(m.mtype, m.quantity) else 0)
  }

  /** RETURN and ADJUSTMENT units on the days lo..hi. */
  function UnwalkedBetween(movements: seq<Movement>, p: int, lo: int, hi: int): int {
    Sum(movements, (m: Movement) => if m.product == p && lo <= m.day <= hi then Delta(m.mtype, m.quantity) - Net(m) else 0)
  }

  function LaterUnits(movements: seq<Movement>, p: int, end: int): int {
    Sum(movements, (m: Movement) => if m.product == p && m.day > end then Delta(m.mtype, m.quantity) else 0)
  }

  /** The walk's stock for day `d` before the clamp: the window sums the days after `d` up to `end`. */
  function Walk(current: int, movements: seq<Movement>, p: int, d: int, end: int): int {
    current - NetBetween(movements, p, d + 1, end)
  }

  lemma NetDay(movements: seq<Movement>, p: int, lo: int, hi: int)
    requires lo <= hi
    ensures NetBetween(movements, p, lo, hi) == NetBetween(movements, p, lo, lo) + NetBetween(movements, p, lo + 1, hi)
  {
    SumPlus(movements, (m: Movement) => if m.product == p && lo <= m.day <= lo then Net(m) else 0,
                       (m: Movement) => if m.product == p && lo + 1 <= m.day <= hi then Net(m) else 0,
                       (m: Movement) => if m.product == p && lo <= m.day <= hi then Net(m) else 0);
  }

  method DailyNet(movements: seq<Movement>, p: int, day: int) returns (net: int)
    ensures net == NetBetween(movements, p, day, day)
  {
    net := 0;
    for i := 0 to |movements|
      invariant net == NetBetween(movements[..i], p, day, day)
    {
      assert movements[..i + 1][..i] == movements[..i];
      if movements[i].product == p && movements[i].day == day {
        if movements[i].mtype == IN {
          net := net + movements[i].quantity;
        } else if movements[i].mtype == OUT {
          net := net - movements[i].quantity;
        }
      }
    }
    assert movements[..|movements|] == movements;
  }

  /** The rows for start..end, newest day first walked. */
  method WalkBack(current: int, movements: seq<Movement>, p: int, start: int, end: int) returns (stock: seq<int>)
    ensures |stock| == Max(end + 1 - start, 0)
    ensures forall k :: 0 <= k < |stock| ==> stock[k] == Max(Walk(current, movements, p, start + k, end), 0)
  {
    stock := [];
    var day, left := end, current;
    SumZero(movements, (m: Movement) => if m.product == p && end + 1 <= m.day <= end then Net(m) else 0);
    while day >= start
      invariant day <= end && (day < end ==> start - 1 <= day) && |stock| == end - day
      invariant left == Walk(current, movements, p, day, end)
      invariant forall k :: 0 <= k < |stock| ==> stock[k] == Max(Walk(current, movements, p, day + 1 + k, end), 0)
    {
      stock := [Max(left, 0)] + stock;
      var net := DailyNet(movements, p, day);
      NetDay(movements, p, day, end);
      left := left - net;
      day := day - 1;
    }
  }

  /** The walk against the forward balance, for every ledger: it is off by the RETURN and ADJUSTMENT units of
      the later days it walks over, and by whatever is dated after its last day. */
  lemma WalkVersusBalance(opening: int, movements: seq<Movement>, p: int, d: int, end: int)
    requires d <= end
    ensures Walk(Current(opening, movements, p), movements, p, d, end)
            == Balance(opening, movements, p, d) + UnwalkedBetween(movements, p, d + 1, end) + LaterUnits(movements, p, end)
  {
    var upTo := (m: Movement) => if m.product == p && m.day <= d then Delta(m.mtype, m.quantity) else 0;
    var net := (m: Movement) => if m.product == p && d + 1 <= m.day <= end then Net(m) else 0;
    var other := (m: Movement) => if m.product == p && d + 1 <= m.day <= end then Delta(m.mtype, m.quantity) - Net(m) else 0;
    var later := (m: Movement) => if m.product == p && m.day > end then Delta(m.mtype, m.quantity) else 0;
    var all := (m: Movement) => if m.product == p then Delta(m.mtype, m.quantity) else 0;
    SumPlus(movements, upTo, net, m => upTo(m) + net(m));
    SumPlus(movements, other, later, m => other(m) + later(m));
    SumPlus(movements, m => upTo(m) + net(m), m => other(m) + later(m), all);
  }

  /** With nothing dated after the last day, the walk is exact at `d` iff the later RETURN and ADJUSTMENT units
      cancel; in particular for ledgers of IN and OUT only. */
  lemma WalkExact(opening: int, movements: seq<Movement>, p: int, d: int, end: int)
    requires d <= end && forall m :: m in movements ==> m.day <= end
    ensures Walk(Current(opening, movements, p), movements, p, d, end) == Balance(opening, movements, p, d)
            <==> UnwalkedBetween(movements, p, d + 1, end) == 0
    ensures (forall m :: m in movements ==> m.mtype == IN || m.mtype == OUT) ==> UnwalkedBetween(movements, p, d + 1, end) == 0
  {
    WalkVersusBalance(opening, movements, p, d, end);
    SumZero(movements, (m: Movement) => if m.product == p && m.day > end then Delta(m.mtype, m.quantity) else 0);
    if forall m :: m in movements ==> m.mtype == IN || m.mtype == OUT {
      SumZero(movements, (m: Movement) => if m.product == p && d + 1 <= m.day <= end then Delta(m.mtype, m.quantity) - Net(m) else 0);
    }
  }

  /** What the walk leaves out: the units of RETURN and ADJUSTMENT rows. */
  lemma UnwalkedByType(movements: seq<Movement>, p: int, lo: int, hi: int)
    ensures UnwalkedBetween(movements, p, lo, hi) ==
            Sum(movements, (m: Movement) => if m.product == p && lo <= m.day <= hi && m.mtype in {RETURN, ADJUSTMENT} then m.quantity else 0)
  {
    SumSame(movements,
            (m: Movement) => if m.product == p && lo <= m.day <= hi then Delta(m.mtype, m.quantity) - Net(m) else 0,
            (m: Movement) => if m.product == p && lo <= m.day <= hi && m.mtype in {RETURN, ADJUSTMENT} then m.quantity else 0);
  }

  // ---- the clamp ----

  predicate InOrder(movements: seq<Movement>) {
    forall i, k :: 0 <= i < k < |movements| ==> movements[i].day <= movements[k].day
  }

  /** The stock floor: no prefix of the ledger leaves the product below zero. */
  ghost predicate NeverNegative(opening: int, movements: seq<Movement>, p: int) {
    forall n :: 0 <= n <= |movements| ==> Current(opening, movements[..n], p) >= 0
  }

  /** Rows are dated in ledger order, so a day's end is a prefix of the ledger. */
  lemma {:induction false} DayEndIsPrefix(opening: int, movements: seq<Movement>, p: int, d: int) returns (n: nat)
    requires InOrder(movements)
    ensures n <= |movements| && Balance(opening, movements, p, d) == Current(opening, movements[..n], p)
  {
    if movements == [] {
      n := 0;
    } else {
      var last := |movements| - 1;
      if movements[last].day <= d {
        n := |movements|;
        assert movements[..n] == movements;
        SumSame(movements, (m: Movement) => if m.product == p && m.day <= d then Delta(m.mtype, m.quantity) else 0,
                           (m: Movement) => if m.product == p then Delta(m.mtype, m.quantity) else 0);
      } else {
        n := DayEndIsPrefix(opening, movements[..last], p, d);
        assert movements[..last][..n] == movements[..n];
      }
    }
  }

  /** For IN/OUT ledgers dated in order and kept by the stock floor, every inventory row WalkBack makes is the
      ledger balance at that day's end, and the clamp never changes one. */
  lemma ClampIsIdle(opening: int, movements: seq<Movement>, p: int, d: int, end: int)
    requires d <= end && InOrder(movements) && NeverNegative(opening, movements, p)
    requires forall m :: m in movements ==> m.day <= end && (m.mtype == IN || m.mtype == OUT)
    ensures var walk := Walk(Current(opening, movements, p), movements, p, d, end);
            walk >= 0 && Max(walk, 0) == Balance(opening, movements, p, d)
  {
    WalkExact(opening, movements, p, d, end);
    var n := DayEndIsPrefix(opening, movements, p, d);
  }

  // ---- the walk and the movement facts ----

  function FactNet(facts: map<Key, Qty>, key: Key): int {
    if key in facts then facts[key].netQty else 0
  }

  /** net_qty of one product's fact rows over the days lo..hi. */
  function FactNetBetween(facts: map<Key, Qty>, warehouse: string, sku: string, lo: int, hi: int): int
    decreases hi - lo
  {
    if hi < lo then 0 else FactNet(facts, Key(lo, warehouse, sku)) + FactNetBetween(facts, warehouse, sku, lo + 1, hi)
  }

  /** `p` alone has its SKU and warehouse, the name is a clean one, and nothing is soft-deleted. */
  ghost predicate Distinguished(db: Db, p: int) {
    && 0 <= p < |db.products|
    && db.products[p].warehouse.Some? && Clean(db.products[p].warehouse.value)
    && (forall k :: 0 <= k < |db.products| && db.products[k] == db.products[p] ==> k == p)
    && (forall m :: m in db.movements ==> !m.deleted && 0 <= m.product < |db.products|)
  }

  lemma FactNetIsNet(db: Db, p: int, d: int)
    requires Distinguished(db, p) && DayGood(db, d)
    ensures FactNet(db.facts, Key(d, db.products[p].warehouse.value, db.products[p].sku)) == NetBetween(db.movements, p, d, d)
  {
    var key := Key(d, db.products[p].warehouse.value, db.products[p].sku);
    var keep := Meant(db.products, key);
    assert Matches(db.facts, key, db.movements, keep);
    forall m | m in db.movements ensures keep(m) <==> m.product == p && m.day == d {
      if keep(m) {
        assert db.products[m.product] == db.products[p];
      }
    }
    var net := NetOf(keep);
    SumSame(db.movements, net, (m: Movement) => if m.product == p && d <= m.day <= d then Net(m) else 0);
    if key !in db.facts {
      SumZero(db.movements, net);
    }
  }

  /** `p` alone has its SKU and warehouse, and the name is a clean one. */
  ghost predicate Unshared(db: Db, p: int) {
    && 0 <= p < |db.products|
    && db.products[p].warehouse.Some? && db.products[p].warehouse.value != ""
    && db.products[p].warehouse.value[0] != ' ' && db.products[p].warehouse.value[|db.products[p].warehouse.value| - 1] != ' '
    && (forall k :: 0 <= k < |db.products| && db.products[k] == db.products[p] ==> k == p)
  }

  /** Units of the live rows of product `p` on day `d` that have type `mtype`. */
  function UnitsOn(movements: seq<Movement>, p: int, d: int, mtype: MoveType): int {
    Sum(movements, (m: Movement) => if m.product == p && m.day == d && m.mtype == mtype && !m.deleted then m.quantity else 0)
  }

  lemma MeantIsMine(db: Db, p: int, d: int, m: Movement)
    requires Unshared(db, p)
    ensures Meant(db.products, Key(d, db.products[p].warehouse.value, db.products[p].sku))(m) <==>
            m.product == p && m.day == d && !m.deleted
  {
    if 0 <= m.product < |db.products| {
      assert db.products[m.product] == db.products[p] ==> m.product == p;
    }
  }

  lemma {:induction false} TotalsNet(movements: seq<Movement>, keep: Movement -> bool)
    ensures Totals(movements, keep).netQty == Totals(movements, keep).inQty - Totals(movements, keep).outQty
  {
    if movements != [] {
      TotalsNet(movements[..|movements| - 1], keep);
    }
  }

  /** On a right day a product's fact row is there exactly when it has a live movement that day; `inQty` is the
      units of its IN rows, `outQty` those of its OUT rows, `netQty` the difference. */
  lemma FactRowExactly(db: Db, p: int, d: int)
    requires Unshared(db, p) && DayGood(db, d)
    ensures var key := Key(d, db.products[p].warehouse.value, db.products[p].sku);
            && (key in db.facts <==> exists m :: m in db.movements && m.product == p && m.day == d && !m.deleted)
            && (key in db.facts ==>
                  db.facts[key].inQty == UnitsOn(db.movements, p, d, IN)
                  && db.facts[key].outQty == UnitsOn(db.movements, p, d, OUT)
                  && db.facts[key].netQty == UnitsOn(db.movements, p, d, IN) - UnitsOn(db.movements, p, d, OUT))
  {
    var key := Key(d, db.products[p].warehouse.value, db.products[p].sku);
    var keep := Meant(db.products, key);
    assert Matches(db.facts, key, db.movements, keep);
    forall m | m in db.movements ensures keep(m) <==> m.product == p && m.day == d && !m.deleted {
      MeantIsMine(db, p, d, m);
    }
    SumSame(db.movements, Incoming(keep),
            (m: Movement) => if m.product == p && m.day == d && m.mtype == IN && !m.deleted then m.quantity else 0);
    SumSame(db.movements, Outgoing(keep),
            (m: Movement) => if m.product == p && m.day == d && m.mtype == OUT && !m.deleted then m.quantity else 0);
    TotalsNet(db.movements, keep);
  }

  /** Every fact row of a right day has a live movement behind it, and its net is what came in minus what went out. */
  lemma EveryRowIsNet(db: Db, key: Key)
    requires DayGood(db, key.day) && key in db.facts
    ensures db.facts[key].netQty == db.facts[key].inQty - db.facts[key].outQty
    ensures exists m :: m in db.movements && !m.deleted && m.day == key.day && 0 <= m.product < |db.products|
              && db.products[m.product] == Product(key.sku, Some(key.warehouse))
  {
    var keep := Meant(db.products, key);
    assert Matches(db.facts, key, db.movements, keep);
    TotalsNet(db.movements, keep);
    var m :| m in db.movements && keep(m);
    assert db.products[m.product] == Product(key.sku, Some(key.warehouse));
  }

  lemma {:induction false} FactsSumToNet(db: Db, p: int, lo: int, hi: int)
    requires Distinguished(db, p) && lo <= hi + 1 && forall d :: lo <= d <= hi ==> DayGood(db, d)
    ensures FactNetBetween(db.facts, db.products[p].warehouse.value, db.products[p].sku, lo, hi) == NetBetween(db.movements, p, lo, hi)
    decreases hi - lo
  {
    if lo > hi {
      SumZero(db.movements, (m: Movement) => if m.product == p && lo <= m.day <= hi then Net(m) else 0);
    } else {
      FactNetIsNet(db, p, lo);
      NetDay(db.movements, p, lo, hi);
      FactsSumToNet(db, p, lo + 1, hi);
    }
  }

  /** The two fact tables agree: between any two days the walked stock changes by exactly the net_qty the
      movement facts hold for the days in between. */
  lemma WalkTelescopes(db: Db, p: int, current: int, d1: int, d2: int, end: int)
    requires Distinguished(db, p) && d1 <= d2 <= end && forall d :: d1 < d <= d2 ==> DayGood(db, d)
    ensures Walk(current, db.movements, p, d2, end) - Walk(current, db.movements, p, d1, end)
            == FactNetBetween(db.facts, db.products[p].warehouse.value, db.products[p].sku, d1 + 1, d2)
  {
    FactsSumToNet(db, p, d1 + 1, d2);
    SumPlus(db.movements, (m: Movement) => if m.product == p && d1 + 1 <= m.day <= d2 then Net(m) else 0,
                          (m: Movement) => if m.product == p && d2 + 1 <= m.day <= end then Net(m) else 0,
                          (m: Movement) => if m.product == p && d1 + 1 <= m.day <= end then Net(m) else 0);
  }
}
