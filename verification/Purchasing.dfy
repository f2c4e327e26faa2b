/** Purchase orders, the stock ledger and goods receipts: the procedures `sp_po_create`,
    `sp_po_transition` (receive-aware form), `sp_movement_record`, `sp_goods_receipt_create` and
    the soft deletes, each one transaction. A transaction that raises leaves the tables as they
    were. Row ids are positions in their table (serial keys, rows are never removed). */
module Purchasing {
  import opened Options
  import opened StockLedger

  datatype Status = Draft | Approved | InTransit | Received | Cancelled | UnknownStatus(text: string)

  datatype Product = Product(stock: int, onOrder: int, deleted: bool)

  /** `born` is a history field: the status the order was created with. */
  datatype Order = Order(number: string, product: int, quantity: int, status: Status, received: int,
                         deleted: bool, born: Status)

  /** `forOrder` is a history field: the order whose receipt wrote the row, None for a row recorded
      directly. The table itself only keeps the reference text. */
  datatype Movement = Movement(product: int, mtype: MoveType, quantity: int, reference: Option<string>,
                               user: Option<int>, forOrder: Option<int>, deleted: bool)

  datatype Receipt = Receipt(order: int, quantity: int, receivedBy: int, key: Option<string>)

  datatype Db = Db(products: seq<Product>, orders: seq<Order>, movements: seq<Movement>,
                   receipts: seq<Receipt>, users: set<int>)

  datatype Error =
    | ProductNotFound | InvalidMovementType | InsufficientStock
    | OrderNotFound | InvalidTransition | NotPositive | ExceedsOutstanding
    | UserNotFound | KeyReused | DuplicateNumber | CheckViolation | ForeignKeyViolation

  datatype Outcome = Committed(db: Db) | RolledBack(error: Error)

  datatype Reply = Ok | Raised(error: Error)

  // ---- the procedures as functions of the tables ----

  predicate ProductRow(products: seq<Product>, id: int) {
    0 <= id < |products|
  }

  predicate OrderRow(orders: seq<Order>, id: int) {
    0 <= id < |orders|
  }

  function RecordMovement(db: Db, product: int, mtype: MoveType, quantity: int, reference: Option<string>,
                          user: Option<int>, forOrder: Option<int>): Outcome
  {
    if !ProductRow(db.products, product) || db.products[product].deleted then RolledBack(ProductNotFound)
    else if mtype.UnknownType? then RolledBack(InvalidMovementType)
    else
      var p := db.products[product];
      if p.stock + Delta(mtype, quantity) < 0 then RolledBack(InsufficientStock)
      else if quantity <= 0 then RolledBack(CheckViolation)
      else if user.Some? && user.value !in db.users then RolledBack(ForeignKeyViolation)
      else
        Committed(db.(movements := db.movements + [Movement(product, mtype, quantity, reference, user, forOrder, false)],
                      products := db.products[product := p.(stock := p.stock + Delta(mtype, quantity))]))
  }

  predicate LegalMove(from: Status, to: Status) {
    match from
    case Draft => to in {Approved, Cancelled}
    case Approved => to in {InTransit, Cancelled}
    case InTransit => to in {Received, Cancelled}
    case _ => false
  }

  /** An order counted in on_order. */
  predicate Open(o: Order) {
    o.status == Approved || o.status == InTransit
  }

  function Outstanding(o: Order): int {
    o.quantity - o.received
  }

  function SetOnOrder(products: seq<Product>, id: int, units: int): seq<Product>
    requires ProductRow(products, id)
  {
    products[id := products[id].(onOrder := units)]
  }

  function CreateOrder(db: Db, number: string, product: int, quantity: int, status: Status): Outcome {
    if quantity <= 0 || status.UnknownStatus? then RolledBack(CheckViolation)
    else if exists o :: o in db.orders && o.number == number then RolledBack(DuplicateNumber)
    else if !ProductRow(db.products, product) then RolledBack(ForeignKeyViolation)
    else
      var o := Order(number, product, quantity, status, 0, false, status);
      Committed(db.(orders := db.orders + [o],
                    products := if Open(o) then SetOnOrder(db.products, product, db.products[product].onOrder + quantity)
                                else db.products))
  }

  predicate KeyUsed(receipts: seq<Receipt>, key: string) {
    exists r :: r in receipts && r.key == Some(key)
  }

  predicate SameReceipt(receipts: seq<Receipt>, key: string, order: int, quantity: int) {
    exists r :: r in receipts && r.key == Some(key) && r.order == order && r.quantity == quantity
  }

  /** The part of a receive that follows the receipt row. */
  function ApplyReceipt(db: Db, id: int, quantity: int, actor: Option<int>): Outcome
    requires OrderRow(db.orders, id)
  {
    var o := db.orders[id];
    var o' := o.(received := o.received + quantity);
    match RecordMovement(db.(orders := db.orders[id := o']), o.product, IN, quantity, Some(o.number), actor, Some(id))
    case RolledBack(e) => RolledBack(e)
    case Committed(moved) =>
      var p := moved.products[o.product];
      Committed(moved.(
        products := SetOnOrder(moved.products, o.product, Max(p.onOrder - quantity, 0)),
        orders := moved.orders[id := o'.(status := if o'.received >= o'.quantity then Received else InTransit)]))
  }

  function Receive(db: Db, id: int, quantity: int, actor: Option<int>, key: Option<string>): Outcome
    requires OrderRow(db.orders, id)
  {
    if quantity <= 0 then RolledBack(NotPositive)
    else if quantity > Outstanding(db.orders[id]) then RolledBack(ExceedsOutstanding)
    else if actor.None? then ApplyReceipt(db, id, quantity, actor)
    else if actor.value !in db.users then RolledBack(UserNotFound)
    else if key.Some? && KeyUsed(db.receipts, key.value) then
      if SameReceipt(db.receipts, key.value, id, quantity) then Committed(db) else RolledBack(KeyReused)
    else
      ApplyReceipt(db.(receipts := db.receipts + [Receipt(id, quantity, actor.value, key)]), id, quantity, actor)
  }

  function Transition(db: Db, id: int, to: Status, quantity: Option<int>, actor: Option<int>, key: Option<string>): Outcome {
    if !OrderRow(db.orders, id) || db.orders[id].deleted then RolledBack(OrderNotFound)
    else
      var o := db.orders[id];
      if o.status == to then Committed(db)
      else if !LegalMove(o.status, to) then RolledBack(InvalidTransition)
      else if !ProductRow(db.products, o.product) then RolledBack(ForeignKeyViolation)
      else
        match to
        case Received => Receive(db, id, if quantity.Some? then quantity.value else o.quantity, actor, key)
        case Approved =>
          Committed(db.(orders := db.orders[id := o.(status := to)],
                        products := SetOnOrder(db.products, o.product, db.products[o.product].onOrder + o.quantity)))
        case Cancelled =>
          Committed(db.(orders := db.orders[id := o.(status := to)],
                        products := if Open(o)
                                    then SetOnOrder(db.products, o.product,
                                                    Max(db.products[o.product].onOrder - Outstanding(o), 0))
                                    else db.products))
        case _ => Committed(db.(orders := db.orders[id := o.(status := to)]))
  }

  datatype Step =
    | Create(number: string, product: int, quantity: int, status: Status)
    | Move(id: int, to: Status, units: Option<int>, actor: Option<int>, key: Option<string>)
    | Record(product: int, mtype: MoveType, quantity: int, reference: Option<string>, user: Option<int>)
    | DeleteOrder(id: int)
    | DeleteMovement(id: int)
    | DeleteProduct(product: int)

  function Apply(db: Db, step: Step): Outcome {
    match step
    case Create(number, product, quantity, status) => CreateOrder(db, number, product, quantity, status)
    case Move(id, to, units, actor, key) => Transition(db, id, to, units, actor, key)
    case Record(product, mtype, quantity, reference, user) =>
      RecordMovement(db, product, mtype, quantity, reference, user, None)
    case DeleteOrder(id) =>
      Committed(if OrderRow(db.orders, id) then db.(orders := db.orders[id := db.orders[id].(deleted := true)]) else db)
    case DeleteMovement(id) =>
      Committed(if 0 <= id < |db.movements|
                then db.(movements := db.movements[id := db.movements[id].(deleted := true)]) else db)
    case DeleteProduct(product) =>
      Committed(if ProductRow(db.products, product)
                then db.(products := db.products[product := db.products[product].(deleted := true)]) else db)
  }

  function Next(db: Db, step: Step): Db {
    match Apply(db, step)
    case Committed(db') => db'
    case RolledBack(_) => db
  }

  function Run(db: Db, steps: seq<Step>): Db {
    if steps == [] then db else Next(Run(db, steps[..|steps| - 1]), steps[|steps| - 1])
  }

  // ---- the procedures as they run: statement by statement on the tables ----

  class Tables {
    var products: seq<Product>
    var orders: seq<Order>
    var movements: seq<Movement>
    var receipts: seq<Receipt>
    var users: set<int>

    constructor (db: Db)
      ensures View() == db
    {
      products, orders, movements, receipts, users := db.products, db.orders, db.movements, db.receipts, db.users;
    }

    function View(): Db
      reads this
    {
      Db(products, orders, movements, receipts, users)
    }

    method Restore(db: Db)
      modifies this
      ensures View() == db
    {
      products, orders, movements, receipts, users := db.products, db.orders, db.movements, db.receipts, db.users;
    }

    method MovementRecord(product: int, mtype: MoveType, quantity: int, reference: Option<string>,
                          user: Option<int>, forOrder: Option<int>)
      returns (reply: Reply)
      modifies this
      ensures Refines(RecordMovement(old(View()), product, mtype, quantity, reference, user, forOrder), old(View()), reply)
    {
      if product < 0 || product >= |products| || products[product].deleted {
        return Raised(ProductNotFound);
      }
      var stock := products[product].stock;
      var delta;
      if mtype == IN || mtype == RETURN || mtype == ADJUSTMENT {
        delta := quantity;
      } else if mtype == OUT {
        delta := -quantity;
      } else {
        return Raised(InvalidMovementType);
      }
      if stock + delta < 0 {
        return Raised(InsufficientStock);
      }
      if quantity <= 0 {
        return Raised(CheckViolation);
      }
      if user.Some? && user.value !in users {
        return Raised(ForeignKeyViolation);
      }
      movements := movements + [Movement(product, mtype, quantity, reference, user, forOrder, false)];
      products := products[product := products[product].(stock := stock + delta)];
      return Ok;
    }

    /** `reply` and the tables now are what the transaction `o`, started on `before`, leaves. */
    ghost predicate Refines(o: Outcome, before: Db, reply: Reply)
      reads this
    {
      match o
      case Committed(after) => reply == Ok && View() == after
      case RolledBack(e) => reply == Raised(e) && View() == before
    }

    method PoCreate(number: string, product: int, quantity: int, status: Status) returns (reply: Reply)
      modifies this
      ensures Refines(CreateOrder(old(View()), number, product, quantity, status), old(View()), reply)
    {
      if quantity <= 0 || status.UnknownStatus? {
        return Raised(CheckViolation);
      }
      var taken := exists o :: o in orders && o.number == number;
      if taken {
        return Raised(DuplicateNumber);
      }
      if product < 0 || product >= |products| {
        return Raised(ForeignKeyViolation);
      }
      orders := orders + [Order(number, product, quantity, status, 0, false, status)];
      if status == Approved || status == InTransit {
        products := SetOnOrder(products, product, products[product].onOrder + quantity);
      }
      return Ok;
    }

    /** Inserts a receipt unless its key is taken; `id` is None when it is. */
    method GoodsReceiptCreate(order: int, quantity: int, receivedBy: int, key: Option<string>)
      returns (reply: Reply, id: Option<nat>)
      modifies this`receipts
      ensures receivedBy !in users ==> reply == Raised(UserNotFound) && receipts == old(receipts)
      ensures receivedBy in users ==> reply == Ok
      ensures id.None? ==> receipts == old(receipts)
      ensures reply == Ok ==> (id.None? <==> key.Some? && KeyUsed(old(receipts), key.value))
      ensures id.Some? ==> receipts == old(receipts) + [Receipt(order, quantity, receivedBy, key)]
    {
      if receivedBy !in users {
        return Raised(UserNotFound), None;
      }
      if key.Some? {
        var taken := exists r :: r in receipts && r.key == key;
        if taken {
          return Ok, None;
        }
      }
      id := Some(|receipts|);
      receipts := receipts + [Receipt(order, quantity, receivedBy, key)];
      reply := Ok;
    }

    /** The statements after the receipt row; a ledger refusal undoes them. */
    method PostReceipt(id: int, quantity: int, actor: Option<int>) returns (reply: Reply)
      requires OrderRow(orders, id)
      modifies this
      ensures Refines(ApplyReceipt(old(View()), id, quantity, actor), old(View()), reply)
    {
      var start := View();
      var po := orders[id];
      orders := orders[id := po.(received := po.received + quantity)];
      reply := MovementRecord(po.product, IN, quantity, Some(po.number), actor, Some(id));
      if reply.Raised? {
        Restore(start);
        return;
      }
      products := SetOnOrder(products, po.product, Max(products[po.product].onOrder - quantity, 0));
      var full := orders[id].received >= orders[id].quantity;
      orders := orders[id := orders[id].(status := if full then Received else InTransit)];
    }

    method ReceiveGoods(id: int, quantity: int, actor: Option<int>, key: Option<string>) returns (reply: Reply)
      requires OrderRow(orders, id)
      modifies this
      ensures Refines(Receive(old(View()), id, quantity, actor, key), old(View()), reply)
    {
      var start := View();
      if quantity <= 0 {
        return Raised(NotPositive);
      }
      if quantity > orders[id].quantity - orders[id].received {
        return Raised(ExceedsOutstanding);
      }
      if actor.Some? {
        var r, receipt := GoodsReceiptCreate(id, quantity, actor.value, key);
        if r.Raised? {
          return r;
        }
        if key.Some? && receipt.None? {
          var replay := exists gr :: gr in receipts && gr.key == key && gr.order == id && gr.quantity == quantity;
          return if replay then Ok else Raised(KeyReused);
        }
      }
      reply := PostReceipt(id, quantity, actor);
      if reply.Raised? {
        Restore(start);
      }
    }

    method PoTransition(id: int, to: Status, units: Option<int>, actor: Option<int>, key: Option<string>)
      returns (reply: Reply)
      modifies this
      ensures Refines(Transition(old(View()), id, to, units, actor, key), old(View()), reply)
    {
      if id < 0 || id >= |orders| || orders[id].deleted {
        return Raised(OrderNotFound);
      }
      var po := orders[id];
      if po.status == to {
        return Ok;
      }
      if !((po.status == Draft && (to == Approved || to == Cancelled))
           || (po.status == Approved && (to == InTransit || to == Cancelled))
           || (po.status == InTransit && (to == Received || to == Cancelled))) {
        return Raised(InvalidTransition);
      }
      if po.product < 0 || po.product >= |products| {
        return Raised(ForeignKeyViolation);
      }
      if to == Received {
        reply := ReceiveGoods(id, if units.Some? then units.value else po.quantity, actor, key);
        return;
      }
      if to == Approved {
        products := SetOnOrder(products, po.product, products[po.product].onOrder + po.quantity);
      } else if to == Cancelled && (po.status == Approved || po.status == InTransit) {
        products := SetOnOrder(products, po.product,
                               Max(products[po.product].onOrder - (po.quantity - po.received), 0));
      }
      orders := orders[id := orders[id].(status := to)];
      return Ok;
    }

    method MovementSoftDelete(id: int)
      modifies this
      ensures View() == Next(old(View()), DeleteMovement(id))
      ensures movements == if 0 <= id < |old(movements)| then old(movements)[id := old(movements)[id].(deleted := true)] else old(movements)
      ensures products == old(products) && orders == old(orders) && receipts == old(receipts) && users == old(users)
    {
      if 0 <= id < |movements| {
        movements := movements[id := movements[id].(deleted := true)];
      }
    }

    method PoSoftDelete(id: int)
      modifies this
      ensures View() == Next(old(View()), DeleteOrder(id))
      ensures orders == if 0 <= id < |old(orders)| then old(orders)[id := old(orders)[id].(deleted := true)] else old(orders)
      ensures products == old(products) && movements == old(movements) && receipts == old(receipts) && users == old(users)
    {
      if 0 <= id < |orders| {
        orders := orders[id := orders[id].(deleted := true)];
      }
    }
  }
}
