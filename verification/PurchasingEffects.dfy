/** What each purchasing step does, read off the columns: exactly when it changes the tables, and what it leaves. */
module PurchasingEffects {
  import opened Options
  import opened Sums
  import opened StockLedger
  import opened Purchasing
  import opened PurchasingInvariants
  import opened PurchasingRuns

  // ---- movements ----

  /** A movement commits exactly for a live product, a known type, enough stock, a positive quantity and a known
      user; IN, RETURN and ADJUSTMENT add their units to the stock, OUT takes them off. */
  lemma RecordExactly(db: Db, product: int, mtype: MoveType, quantity: int, reference: Option<string>, user: Option<int>)
    ensures var outcome := Apply(db, Record(product, mtype, quantity, reference, user));
            var live := 0 <= product < |db.products| && !db.products[product].deleted;
            && (outcome.Committed? <==>
                  live && mtype in {IN, OUT, RETURN, ADJUSTMENT} && quantity > 0
                  && (mtype == OUT ==> quantity <= db.products[product].stock)
                  && (mtype != OUT ==> 0 <= db.products[product].stock + quantity)
                  && (user.Some? ==> user.value in db.users))
            && (outcome.Committed? ==>
                  var p := db.products[product];
                  outcome.db == Db(
                    db.products[product := Product(if mtype == OUT then p.stock - quantity else p.stock + quantity, p.onOrder, false)],
                    db.orders, db.movements + [Movement(product, mtype, quantity, reference, user, None, false)],
                    db.receipts, db.users))
  {
  }

  /** And the first check that fails is the one reported. */
  lemma RecordRefusals(db: Db, product: int, mtype: MoveType, quantity: int, reference: Option<string>, user: Option<int>)
    ensures var outcome := Apply(db, Record(product, mtype, quantity, reference, user));
            var live := 0 <= product < |db.products| && !db.products[product].deleted;
            && (outcome == RolledBack(ProductNotFound) <==> !live)
            && (outcome == RolledBack(InvalidMovementType) <==> live && mtype.UnknownType?)
            && (live && mtype == OUT && quantity > db.products[product].stock ==> outcome == RolledBack(InsufficientStock))
            && (live && mtype in {IN, RETURN, ADJUSTMENT} && quantity <= 0 <= db.products[product].stock + quantity ==>
                  outcome == RolledBack(CheckViolation))
  {
  }

  /** Units of the rows of product `p` that have type `mtype`: soft-deleted rows included. */
  function UnitsOf(movements: seq<Movement>, p: int, mtype: MoveType): int {
    Sum(movements, (m: Movement) => if m.product == p && m.mtype == mtype then m.quantity else 0)
  }

  lemma UnitsAppend(ms: seq<Movement>, m: Movement, p: int, mtype: MoveType)
    ensures UnitsOf(ms + [m], p, mtype) == UnitsOf(ms, p, mtype) + if m.product == p && m.mtype == mtype then m.quantity else 0
  {
  }

  lemma {:induction false} LedgerByType(movements: seq<Movement>, p: int)
    ensures LedgerUnits(movements, p) ==
            UnitsOf(movements, p, IN) + UnitsOf(movements, p, RETURN) + UnitsOf(movements, p, ADJUSTMENT)
            - UnitsOf(movements, p, OUT)
  {
    if movements != [] {
      var front, m := movements[..|movements| - 1], movements[|movements| - 1];
      assert movements == front + [m];
      LedgerByType(front, p);
      MovementsAppend(front, m);
      UnitsAppend(front, m, p, IN);
      UnitsAppend(front, m, p, RETURN);
      UnitsAppend(front, m, p, ADJUSTMENT);
      UnitsAppend(front, m, p, OUT);
    }
  }

  /** After any run from empty tables the stock is what it was, plus the units of all IN, RETURN and ADJUSTMENT
      rows, minus the units of all OUT rows. */
  lemma StockByType(db: Db, steps: seq<Step>, p: int)
    requires Empty(db) && 0 <= p < |db.products|
    ensures var end := Run(db, steps);
            && p < |end.products|
            && end.products[p].stock == db.products[p].stock
               + UnitsOf(end.movements, p, IN) + UnitsOf(end.movements, p, RETURN) + UnitsOf(end.movements, p, ADJUSTMENT)
               - UnitsOf(end.movements, p, OUT)
  {
    TotalsAgree(db, steps, p);
    LedgerByType(Run(db, steps).movements, p);
  }

  /** From any consistent tables, the same of what a run adds. */
  lemma StockMovesByType(db: Db, steps: seq<Step>, p: int)
    requires Valid(db) && 0 <= p < |db.products|
    ensures var end := Run(db, steps);
            && p < |end.products|
            && end.products[p].stock - db.products[p].stock ==
               (UnitsOf(end.movements, p, IN) - UnitsOf(db.movements, p, IN))
               + (UnitsOf(end.movements, p, RETURN) - UnitsOf(db.movements, p, RETURN))
               + (UnitsOf(end.movements, p, ADJUSTMENT) - UnitsOf(db.movements, p, ADJUSTMENT))
               - (UnitsOf(end.movements, p, OUT) - UnitsOf(db.movements, p, OUT))
  {
    RunConserves(db, steps);
    assert Opening(Run(db, steps), p) == Opening(db, p);
    LedgerByType(Run(db, steps).movements, p);
    LedgerByType(db.movements, p);
  }

  // ---- orders ----

  /** An order is created exactly with a positive quantity, a known status, an unused number and a product row;
      it is new, undelivered, and counted in on_order when it starts approved or in transit. */
  lemma CreateExactly(db: Db, number: string, product: int, quantity: int, status: Status)
    ensures var outcome := Apply(db, Create(number, product, quantity, status));
            && (outcome.Committed? <==>
                  quantity > 0 && status in {Draft, Approved, InTransit, Received, Cancelled}
                  && 0 <= product < |db.products| && forall i :: 0 <= i < |db.orders| ==> db.orders[i].number != number)
            && (outcome.Committed? ==>
                  var p := db.products[product];
                  var units := if status == Approved || status == InTransit then p.onOrder + quantity else p.onOrder;
                  outcome.db == Db(db.products[product := Product(p.stock, units, p.deleted)],
                                   db.orders + [Order(number, product, quantity, status, 0, false, status)],
                                   db.movements, db.receipts, db.users))
  {
    var taken := exists o :: o in db.orders && o.number == number;
    assert taken <==> exists i :: 0 <= i < |db.orders| && db.orders[i].number == number;
    if 0 <= product < |db.products| {
      assert db.products[product := db.products[product]] == db.products;
    }
  }

  /** The tables with one order's status and its product's on_order changed. */
  function Restated(db: Db, id: int, status: Status, onOrder: int): Db
    requires 0 <= id < |db.orders| && 0 <= db.orders[id].product < |db.products|
  {
    var o := db.orders[id];
    var p := db.products[o.product];
    Db(db.products[o.product := Product(p.stock, onOrder, p.deleted)],
       db.orders[id := Order(o.number, o.product, o.quantity, status, o.received, o.deleted, o.born)],
       db.movements, db.receipts, db.users)
  }

  /** The order is there, not deleted, in one of `from`. */
  predicate Stands(db: Db, id: int, from: set<Status>) {
    0 <= id < |db.orders| && !db.orders[id].deleted && db.orders[id].status in from
  }

  lemma SameProduct(db: Db, id: int, status: Status)
    requires Valid(db) && 0 <= id < |db.orders|
    ensures 0 <= db.orders[id].product < |db.products|
    ensures Restated(db, id, status, db.products[db.orders[id].product].onOrder) ==
            db.(orders := db.orders[id := db.orders[id].(status := status)])
    ensures db.orders[id].status != status ==> db.(orders := db.orders[id := db.orders[id].(status := status)]) != db
  {
    assert OrderOk(db, id);
    assert db.products[db.orders[id].product := db.products[db.orders[id].product]] == db.products;
    assert db.orders[id := db.orders[id].(status := status)][id].status == status;
  }

  /** Approving works exactly on a draft, and puts its whole quantity on order. */
  lemma ApproveExactly(db: Db, id: int, units: Option<int>, actor: Option<int>, key: Option<string>)
    requires Valid(db)
    ensures var next := Next(db, Move(id, Approved, units, actor, key));
            && (next != db <==> Stands(db, id, {Draft}))
            && (next != db ==>
                  0 <= db.orders[id].product < |db.products|
                  && next == Restated(db, id, Approved, db.products[db.orders[id].product].onOrder + db.orders[id].quantity))
  {
    if 0 <= id < |db.orders| {
      SameProduct(db, id, Approved);
      assert db.orders[id := db.orders[id].(status := Approved)][id].status == Approved;
    }
  }

  /** Shipping works exactly on an approved order and changes its status alone. */
  lemma ShipExactly(db: Db, id: int, units: Option<int>, actor: Option<int>, key: Option<string>)
    requires Valid(db)
    ensures var next := Next(db, Move(id, InTransit, units, actor, key));
            && (next != db <==> Stands(db, id, {Approved}))
            && (next != db ==>
                  0 <= db.orders[id].product < |db.products|
                  && next == Restated(db, id, InTransit, db.products[db.orders[id].product].onOrder))
  {
    if 0 <= id < |db.orders| {
      SameProduct(db, id, InTransit);
    }
  }

  /** Cancelling works exactly on a draft, approved or in-transit order; what an approved or in-transit one still
      had outstanding leaves on_order, what was received stays in stock. */
  lemma CancelExactly(db: Db, id: int, units: Option<int>, actor: Option<int>, key: Option<string>)
    requires Valid(db)
    ensures var next := Next(db, Move(id, Cancelled, units, actor, key));
            && (next != db <==> Stands(db, id, {Draft, Approved, InTransit}))
            && (next != db ==>
                  0 <= db.orders[id].product < |db.products|
                  && var o := db.orders[id];
                     var onOrder := db.products[o.product].onOrder;
                     next == Restated(db, id, Cancelled,
                                      if o.status == Draft then onOrder else onOrder - (o.quantity - o.received)))
  {
    if 0 <= id < |db.orders| {
      SameProduct(db, id, Cancelled);
      var o := db.orders[id];
      assert db.orders[id := o.(status := Cancelled)][id].status == Cancelled;
      if o.status == Approved || o.status == InTransit {
        OutstandingCovered(db, id);
      }
    }
  }

  /** No order goes back to draft or to a status nobody knows. */
  lemma NeverBack(db: Db, id: int, to: Status, units: Option<int>, actor: Option<int>, key: Option<string>)
    requires to == Draft || to.UnknownStatus?
    ensures Next(db, Move(id, to, units, actor, key)) == db
  {
  }

  /** What a receive takes for its units, and when it may book them. */
  predicate MayReceive(db: Db, id: int, units: int, actor: Option<int>, key: Option<string>) {
    && Stands(db, id, {InTransit})
    && 0 < units <= db.orders[id].quantity - db.orders[id].received
    && 0 <= db.orders[id].product < |db.products| && !db.products[db.orders[id].product].deleted
    && (actor.Some? ==> actor.value in db.users)
    && (actor.Some? && key.Some? ==> forall r :: r in db.receipts ==> r.key != key)
  }

  /** A receive, with or without units, user and key, changes the tables exactly when it may, and then books its
      units, or the whole quantity if it names none. */
  lemma ReceiveExactly(db: Db, id: int, units: Option<int>, actor: Option<int>, key: Option<string>)
    requires Valid(db)
    ensures var next := Next(db, Move(id, Received, units, actor, key));
            var u := if units.Some? then units.value else if 0 <= id < |db.orders| then db.orders[id].quantity else 0;
            && (next != db <==> MayReceive(db, id, u, actor, key))
            && (MayReceive(db, id, u, actor, key) ==> next == Booked(db, id, u, actor, key))
  {
    if Stands(db, id, {InTransit}) {
      assert OrderOk(db, id);
      var u := if units.Some? then units.value else db.orders[id].quantity;
      if MayReceive(db, id, u, actor, key) {
        MayReceiveCommits(db, id, u, actor, key);
        ReceiveBooks(db, id, u, actor, key);
        assert |Booked(db, id, u, actor, key).movements| == |db.movements| + 1;
      }
    }
  }

  lemma MayReceiveCommits(db: Db, id: int, units: int, actor: Option<int>, key: Option<string>)
    requires Valid(db) && MayReceive(db, id, units, actor, key)
    ensures Receive(db, id, units, actor, key).Committed?
    ensures !(actor.Some? && key.Some? && KeyUsed(db.receipts, key.value))
  {
    assert db.products[db.orders[id].product].stock >= 0;
  }

  /** Which transition is refused, and with what: an order that is not there, a move the life cycle does not have.
      Asking for the status an order has succeeds and changes nothing. */
  lemma MoveRefusals(db: Db, id: int, to: Status, units: Option<int>, actor: Option<int>, key: Option<string>)
    requires Valid(db)
    ensures var outcome := Apply(db, Move(id, to, units, actor, key));
            var live := 0 <= id < |db.orders| && !db.orders[id].deleted;
            && (outcome == RolledBack(OrderNotFound) <==> !live)
            && (outcome == RolledBack(InvalidTransition) <==>
                  live && db.orders[id].status != to
                  && !(to == Approved && db.orders[id].status == Draft)
                  && !(to == InTransit && db.orders[id].status == Approved)
                  && !(to == Received && db.orders[id].status == InTransit)
                  && !(to == Cancelled && db.orders[id].status in {Draft, Approved, InTransit}))
            && (live && db.orders[id].status == to ==> outcome == Committed(db))
  {
    if 0 <= id < |db.orders| {
      assert OrderOk(db, id);
    }
  }

  /** A receive of an order in transit is refused for its units, its user or its key, in this order; a key used for
      the same order and units is a replay, which succeeds and changes nothing. */
  lemma ReceiveRefusals(db: Db, id: int, units: int, user: int, key: string)
    requires Valid(db) && Stands(db, id, {InTransit})
    ensures var outcome := Apply(db, Move(id, Received, Some(units), Some(user), Some(key)));
            var fits := 0 < units <= db.orders[id].quantity - db.orders[id].received;
            var used := exists r :: r in db.receipts && r.key == Some(key);
            var replay := exists r :: r in db.receipts && r.key == Some(key) && r.order == id && r.quantity == units;
            && (outcome == RolledBack(NotPositive) <==> units <= 0)
            && (outcome == RolledBack(ExceedsOutstanding) <==> units > 0 && !fits)
            && (outcome == RolledBack(UserNotFound) <==> fits && user !in db.users)
            && (outcome == RolledBack(KeyReused) <==> fits && user in db.users && used && !replay)
            && (fits && user in db.users && replay ==> outcome == Committed(db))
  {
    assert OrderOk(db, id);
  }
}
