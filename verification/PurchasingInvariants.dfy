/** What every step of the purchasing procedures keeps, and what follows for whole runs. */
module PurchasingInvariants {
  import opened Options
  import opened Sums
  import opened StockLedger
  import opened Purchasing

  // ---- totals over the tables ----

  /** Units counted in on_order for product `p`: soft-deleted orders included. */
  function OpenUnits(orders: seq<Order>, p: int): int {
    Sum(orders, (o: Order) => if o.product == p && Open(o) then Outstanding(o) else 0)
  }

  /** Signed units of every committed ledger row of product `p`: soft-deleted rows included. */
  function LedgerUnits(movements: seq<Movement>, p: int): int {
    Sum(movements, (m: Movement) => if m.product == p then Delta(m.mtype, m.quantity) else 0)
  }

  /** Units of the ledger rows order `i`'s receipts wrote. */
  function InUnits(movements: seq<Movement>, i: int): int {
    Sum(movements, (m: Movement) => if m.forOrder == Some(i) then m.quantity else 0)
  }

  /** The part of InUnits recorded with a user. */
  function NamedUnits(movements: seq<Movement>, i: int): int {
    Sum(movements, (m: Movement) => if m.forOrder == Some(i) && m.user.Some? then m.quantity else 0)
  }

  function ReceiptUnits(receipts: seq<Receipt>, i: int): int {
    Sum(receipts, (r: Receipt) => if r.order == i then r.quantity else 0)
  }

  // ---- the invariant ----

  ghost predicate OrderOk(db: Db, i: int)
    requires OrderRow(db.orders, i)
  {
    var o := db.orders[i];
    && ProductRow(db.products, o.product)
    && o.quantity > 0
    && 0 <= o.received <= o.quantity
    && o.received == InUnits(db.movements, i)
    && ReceiptUnits(db.receipts, i) == NamedUnits(db.movements, i)
    && !o.status.UnknownStatus?
    && (o.status == Draft || o.status == Approved ==> o.received == 0)
    && (o.born == Received ==> o.status == Received && o.received == 0)
    && (o.born != Received ==> (o.status == Received <==> o.received == o.quantity))
  }

  ghost predicate MovementOk(db: Db, m: Movement) {
    match m.forOrder
    case None => true
    case Some(i) =>
      && OrderRow(db.orders, i)
      && m.mtype == IN && m.quantity > 0
      && m.product == db.orders[i].product
      && m.reference == Some(db.orders[i].number)
  }

  ghost predicate KeysUnique(receipts: seq<Receipt>) {
    forall j, k :: 0 <= j < k < |receipts| && receipts[j].key.Some? ==> receipts[j].key != receipts[k].key
  }

  ghost predicate NumbersUnique(orders: seq<Order>) {
    forall j, k :: 0 <= j < k < |orders| ==> orders[j].number != orders[k].number
  }

  ghost predicate OrdersOk(db: Db) {
    forall i :: OrderRow(db.orders, i) ==> OrderOk(db, i)
  }

  ghost predicate LedgerOk(db: Db) {
    forall m :: m in db.movements ==> MovementOk(db, m)
  }

  ghost predicate ReceiptsOk(db: Db) {
    forall r :: r in db.receipts ==> OrderRow(db.orders, r.order) && r.quantity > 0
  }

  ghost predicate ProductsOk(db: Db) {
    forall p :: ProductRow(db.products, p) ==> db.products[p].stock >= 0 && db.products[p].onOrder >= OpenUnits(db.orders, p)
  }

  ghost predicate Valid(db: Db) {
    && NumbersUnique(db.orders)
    && OrdersOk(db)
    && LedgerOk(db)
    && ReceiptsOk(db)
    && KeysUnique(db.receipts)
    && ProductsOk(db)
  }

  /** Stock the product held before the first ledger row. */
  function Opening(db: Db, p: int): int
    requires ProductRow(db.products, p)
  {
    db.products[p].stock - LedgerUnits(db.movements, p)
  }

  /** on_order beyond what the open orders account for. */
  function Surplus(db: Db, p: int): int
    requires ProductRow(db.products, p)
  {
    db.products[p].onOrder - OpenUnits(db.orders, p)
  }

  ghost predicate Conserves(db: Db, db': Db) {
    && |db'.products| == |db.products|
    && (forall p :: ProductRow(db.products, p) ==> Opening(db', p) == Opening(db, p) && Surplus(db', p) == Surplus(db, p))
  }

  // ---- single rows ----

  lemma NoUnitsYet(db: Db, i: int)
    requires Valid(db) && i == |db.orders|
    ensures InUnits(db.movements, i) == 0 && NamedUnits(db.movements, i) == 0 && ReceiptUnits(db.receipts, i) == 0
  {
    SumZero(db.movements, (m: Movement) => if m.forOrder == Some(i) then m.quantity else 0);
    SumZero(db.movements, (m: Movement) => if m.forOrder == Some(i) && m.user.Some? then m.quantity else 0);
    SumZero(db.receipts, (r: Receipt) => if r.order == i then r.quantity else 0);
  }

  lemma MovementsAppend(ms: seq<Movement>, m: Movement)
    ensures forall p :: LedgerUnits(ms + [m], p) == LedgerUnits(ms, p) + (if m.product == p then Delta(m.mtype, m.quantity) else 0)
    ensures forall i :: InUnits(ms + [m], i) == InUnits(ms, i) + (if m.forOrder == Some(i) then m.quantity else 0)
    ensures forall i :: NamedUnits(ms + [m], i) == NamedUnits(ms, i) + (if m.forOrder == Some(i) && m.user.Some? then m.quantity else 0)
  {
  }

  lemma ReceiptsAppend(rs: seq<Receipt>, r: Receipt)
    ensures forall i :: ReceiptUnits(rs + [r], i) == ReceiptUnits(rs, i) + (if r.order == i then r.quantity else 0)
  {
  }

  function OpenPart(o: Order, p: int): int {
    if o.product == p && Open(o) then Outstanding(o) else 0
  }

  lemma OrdersAppend(os: seq<Order>, o: Order)
    ensures forall p :: OpenUnits(os + [o], p) == OpenUnits(os, p) + OpenPart(o, p)
  {
  }

  lemma OrdersUpdate(os: seq<Order>, i: int, o: Order)
    requires OrderRow(os, i)
    ensures forall p :: OpenUnits(os[i := o], p) == OpenUnits(os, p) - OpenPart(os[i], p) + OpenPart(o, p)
  {
    forall p {
      SumUpdate(os, i, o, (o: Order) => if o.product == p && Open(o) then Outstanding(o) else 0);
    }
  }

  /** One open order's outstanding units are part of its product's total, which on_order covers. */
  lemma OutstandingCovered(db: Db, i: int)
    requires Valid(db) && OrderRow(db.orders, i) && Open(db.orders[i])
    ensures db.products[db.orders[i].product].onOrder >= Outstanding(db.orders[i])
  {
    var o := db.orders[i];
    var weight := (x: Order) => if x.product == o.product && Open(x) then Outstanding(x) else 0;
    forall x | x in db.orders ensures weight(x) >= 0 {
      var k :| 0 <= k < |db.orders| && db.orders[k] == x;
      assert OrderOk(db, k);
    }
    SumNonNegative(db.orders, weight);
    assert weight(db.orders[i]) <= Sum(db.orders, weight);
    assert OpenUnits(db.orders, o.product) == Sum(db.orders, weight);
  }

  // ---- the steps ----

  lemma RecordKeeps(db: Db, product: int, mtype: MoveType, quantity: int, reference: Option<string>, user: Option<int>)
    requires Valid(db)
    requires RecordMovement(db, product, mtype, quantity, reference, user, None).Committed?
    ensures var db' := RecordMovement(db, product, mtype, quantity, reference, user, None).db;
            Valid(db') && Conserves(db, db')
  {
    var db' := RecordMovement(db, product, mtype, quantity, reference, user, None).db;
    MovementsAppend(db.movements, Movement(product, mtype, quantity, reference, user, None, false));
    assert forall i :: OrderRow(db'.orders, i) ==> OrderOk(db, i);
    assert forall m :: m in db.movements ==> MovementOk(db, m);
  }

  lemma CreateKeeps(db: Db, number: string, product: int, quantity: int, status: Status)
    requires Valid(db) && CreateOrder(db, number, product, quantity, status).Committed?
    ensures var db' := CreateOrder(db, number, product, quantity, status).db;
            Valid(db') && Conserves(db, db')
  {
    var db' := CreateOrder(db, number, product, quantity, status).db;
    var o := db'.orders[|db.orders|];
    OrdersAppend(db.orders, o);
    NoUnitsYet(db, |db.orders|);
    forall i | OrderRow(db'.orders, i) ensures OrderOk(db', i) {
      if i < |db.orders| {
        assert OrderOk(db, i);
      }
    }
    assert forall m :: m in db.movements ==> MovementOk(db, m);
  }

  /** A change of one order's status, with on_order moved by what the change opens or releases. */
  lemma StatusKeeps(db: Db, i: int, o': Order, products': seq<Product>)
    requires Valid(db) && OrderRow(db.orders, i)
    requires o' == db.orders[i].(status := o'.status)
    requires Valid(db) ==> OrderOk(db.(orders := db.orders[i := o']), i)
    requires products' == SetOnOrder(db.products, o'.product,
               db.products[o'.product].onOrder - OpenPart(db.orders[i], o'.product) + OpenPart(o', o'.product))
    ensures var db' := db.(orders := db.orders[i := o'], products := products');
            Valid(db') && Conserves(db, db')
  {
    var db' := db.(orders := db.orders[i := o'], products := products');
    OrdersUpdate(db.orders, i, o');
    forall k | OrderRow(db'.orders, k) ensures OrderOk(db', k) {
      assert OrderOk(db, k);
    }
    assert forall m :: m in db.movements ==> MovementOk(db, m);
  }

  /** The tables an effective receive leaves, written out. */
  function Booked(db: Db, id: int, quantity: int, actor: Option<int>, key: Option<string>): Db
    requires OrderRow(db.orders, id) && ProductRow(db.products, db.orders[id].product)
  {
    var o := db.orders[id];
    var p := db.products[o.product];
    var full := o.received + quantity >= o.quantity;
    Db(db.products[o.product := p.(stock := p.stock + quantity, onOrder := p.onOrder - quantity)],
       db.orders[id := o.(received := o.received + quantity, status := if full then Received else InTransit)],
       db.movements + [Movement(o.product, IN, quantity, Some(o.number), actor, Some(id), false)],
       if actor.Some? then db.receipts + [Receipt(id, quantity, actor.value, key)] else db.receipts,
       db.users)
  }

  lemma {:induction false} ReceiveBooks(db: Db, id: int, quantity: int, actor: Option<int>, key: Option<string>)
    requires Valid(db) && OrderRow(db.orders, id) && db.orders[id].status == InTransit
    requires Receive(db, id, quantity, actor, key).Committed?
    requires !(actor.Some? && key.Some? && KeyUsed(db.receipts, key.value))
    ensures 0 < quantity <= Outstanding(db.orders[id]) && ProductRow(db.products, db.orders[id].product)
    ensures Receive(db, id, quantity, actor, key).db == Booked(db, id, quantity, actor, key)
  {
    assert OrderOk(db, id);
    OutstandingCovered(db, id);
  }

  lemma BookedUnits(db: Db, id: int, quantity: int, actor: Option<int>, key: Option<string>, k: int)
    requires OrderRow(db.orders, id) && ProductRow(db.products, db.orders[id].product)
    ensures var db' := Booked(db, id, quantity, actor, key);
            var named := if k == id && actor.Some? then quantity else 0;
            && InUnits(db'.movements, k) == InUnits(db.movements, k) + (if k == id then quantity else 0)
            && NamedUnits(db'.movements, k) == NamedUnits(db.movements, k) + named
            && ReceiptUnits(db'.receipts, k) == ReceiptUnits(db.receipts, k) + named
  {
    MovementsAppend(db.movements, Movement(db.orders[id].product, IN, quantity, Some(db.orders[id].number), actor, Some(id), false));
    if actor.Some? {
      ReceiptsAppend(db.receipts, Receipt(id, quantity, actor.value, key));
    }
  }

  lemma BookedOrder(db: Db, id: int, quantity: int, actor: Option<int>, key: Option<string>, k: int)
    requires OrderRow(db.orders, id) && db.orders[id].status == InTransit
    requires ProductRow(db.products, db.orders[id].product)
    requires 0 < quantity <= Outstanding(db.orders[id])
    requires OrderRow(db.orders, k) && OrderOk(db, k) && OrderOk(db, id)
    ensures OrderOk(Booked(db, id, quantity, actor, key), k)
  {
    BookedUnits(db, id, quantity, actor, key, k);
  }

  lemma BookedOrders(db: Db, id: int, quantity: int, actor: Option<int>, key: Option<string>)
    requires Valid(db) && OrderRow(db.orders, id) && db.orders[id].status == InTransit
    requires ProductRow(db.products, db.orders[id].product)
    requires 0 < quantity <= Outstanding(db.orders[id])
    ensures OrdersOk(Booked(db, id, quantity, actor, key))
  {
    assert OrderOk(db, id);
    forall k | OrderRow(db.orders, k) ensures OrderOk(Booked(db, id, quantity, actor, key), k) {
      assert OrderOk(db, k);
      BookedOrder(db, id, quantity, actor, key, k);
    }
  }

  lemma BookedTotals(db: Db, id: int, quantity: int, actor: Option<int>, key: Option<string>)
    requires Valid(db) && OrderRow(db.orders, id) && db.orders[id].status == InTransit
    requires ProductRow(db.products, db.orders[id].product)
    requires 0 < quantity <= Outstanding(db.orders[id])
    ensures var db' := Booked(db, id, quantity, actor, key);
            Conserves(db, db') && ProductsOk(db')
  {
    var db' := Booked(db, id, quantity, actor, key);
    OrdersUpdate(db.orders, id, db'.orders[id]);
    MovementsAppend(db.movements, db'.movements[|db.movements|]);
  }

  lemma BookedLedger(db: Db, id: int, quantity: int, actor: Option<int>, key: Option<string>)
    requires Valid(db) && OrderRow(db.orders, id) && ProductRow(db.products, db.orders[id].product)
    requires 0 < quantity
    ensures LedgerOk(Booked(db, id, quantity, actor, key))
  {
  }

  lemma BookedReceipts(db: Db, id: int, quantity: int, actor: Option<int>, key: Option<string>)
    requires Valid(db) && OrderRow(db.orders, id) && ProductRow(db.products, db.orders[id].product)
    requires 0 < quantity
    requires actor.Some? && key.Some? ==> !KeyUsed(db.receipts, key.value)
    ensures var db' := Booked(db, id, quantity, actor, key);
            KeysUnique(db'.receipts) && ReceiptsOk(db') && NumbersUnique(db'.orders)
  {
  }

  lemma BookedKeeps(db: Db, id: int, quantity: int, actor: Option<int>, key: Option<string>)
    requires Valid(db) && OrderRow(db.orders, id) && db.orders[id].status == InTransit
    requires ProductRow(db.products, db.orders[id].product)
    requires 0 < quantity <= Outstanding(db.orders[id])
    requires actor.Some? && key.Some? ==> !KeyUsed(db.receipts, key.value)
    ensures Valid(Booked(db, id, quantity, actor, key)) && Conserves(db, Booked(db, id, quantity, actor, key))
  {
    BookedOrders(db, id, quantity, actor, key);
    BookedTotals(db, id, quantity, actor, key);
    BookedLedger(db, id, quantity, actor, key);
    BookedReceipts(db, id, quantity, actor, key);
  }

  lemma TransitionKeeps(db: Db, id: int, to: Status, units: Option<int>, actor: Option<int>, key: Option<string>)
    requires Valid(db) && Transition(db, id, to, units, actor, key).Committed?
    ensures var db' := Transition(db, id, to, units, actor, key).db;
            Valid(db') && Conserves(db, db')
  {
    assert OrderOk(db, id);
    var o := db.orders[id];
    if o.status != to {
      if to == Received {
        var quantity := if units.Some? then units.value else o.quantity;
        if !(actor.Some? && key.Some? && KeyUsed(db.receipts, key.value)) {
          ReceiveBooks(db, id, quantity, actor, key);
          BookedKeeps(db, id, quantity, actor, key);
        }
      } else {
        if Open(o) {
          OutstandingCovered(db, id);
        }
        var db' := Transition(db, id, to, units, actor, key).db;
        StatusKeeps(db, id, o.(status := to), db'.products);
      }
    }
  }

  /** Soft deletes hide rows from later reads; no total looks at `deleted`. */
  lemma DeletesKeep(db: Db, db': Db)
    requires Valid(db)
    requires |db'.products| == |db.products| && |db'.orders| == |db.orders| && |db'.movements| == |db.movements|
    requires db'.receipts == db.receipts
    requires forall p :: ProductRow(db.products, p) ==> db'.products[p] == db.products[p].(deleted := db'.products[p].deleted)
    requires forall i :: OrderRow(db.orders, i) ==> db'.orders[i] == db.orders[i].(deleted := db'.orders[i].deleted)
    requires forall i :: 0 <= i < |db.movements| ==> db'.movements[i] == db.movements[i].(deleted := db'.movements[i].deleted)
    ensures Valid(db') && Conserves(db, db')
  {
    forall p ensures OpenUnits(db'.orders, p) == OpenUnits(db.orders, p)
             ensures LedgerUnits(db'.movements, p) == LedgerUnits(db.movements, p) {
      SumPointwise(db'.orders, db.orders, (o: Order) => if o.product == p && Open(o) then Outstanding(o) else 0);
      SumPointwise(db'.movements, db.movements, (m: Movement) => if m.product == p then Delta(m.mtype, m.quantity) else 0);
    }
    forall k | OrderRow(db'.orders, k) ensures OrderOk(db', k) {
      assert OrderOk(db, k);
      SumPointwise(db'.movements, db.movements, (m: Movement) => if m.forOrder == Some(k) then m.quantity else 0);
      SumPointwise(db'.movements, db.movements, (m: Movement) => if m.forOrder == Some(k) && m.user.Some? then m.quantity else 0);
    }
    forall m | m in db'.movements ensures MovementOk(db', m) {
      var k :| 0 <= k < |db'.movements| && db'.movements[k] == m;
      assert MovementOk(db, db.movements[k]);
    }
  }

  lemma StepKeeps(db: Db, step: Step)
    requires Valid(db)
    ensures Valid(Next(db, step)) && Conserves(db, Next(db, step))
  {
    if Apply(db, step).Committed? {
      match step
      case Create(number, product, quantity, status) => CreateKeeps(db, number, product, quantity, status);
      case Move(id, to, units, actor, key) => TransitionKeeps(db, id, to, units, actor, key);
      case Record(product, mtype, quantity, reference, user) => RecordKeeps(db, product, mtype, quantity, reference, user);
      case _ => DeletesKeep(db, Next(db, step));
    }
  }

  /** Over every run: stock is the opening stock plus the signed ledger, and on_order the surplus plus
      the outstanding units of the open orders; both offsets are those of the first state. */
  lemma {:induction false} RunConserves(db: Db, steps: seq<Step>)
    requires Valid(db)
    ensures Valid(Run(db, steps)) && Conserves(db, Run(db, steps))
  {
    if steps != [] {
      var before := Run(db, steps[..|steps| - 1]);
      RunConserves(db, steps[..|steps| - 1]);
      StepKeeps(before, steps[|steps| - 1]);
    }
  }
}
