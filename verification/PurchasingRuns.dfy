/** Results about whole runs of the purchasing procedures. */
module PurchasingRuns {
  import opened Options
  import opened Sums
  import opened StockLedger
  import opened Purchasing
  import opened PurchasingInvariants

  ghost predicate Empty(db: Db) {
    && db.orders == [] && db.movements == [] && db.receipts == []
    && forall p :: ProductRow(db.products, p) ==> db.products[p].stock >= 0 && db.products[p].onOrder == 0
  }

  /** From empty tables, after any run: on_order is exactly the outstanding units of the approved and
      in-transit orders, and stock is the opening stock plus the signed ledger and never negative. */
  lemma TotalsAgree(db: Db, steps: seq<Step>, p: int)
    requires Empty(db) && ProductRow(db.products, p)
    ensures var end := Run(db, steps);
            && ProductRow(end.products, p)
            && end.products[p].onOrder == OpenUnits(end.orders, p)
            && end.products[p].stock == db.products[p].stock + LedgerUnits(end.movements, p)
            && end.products[p].stock >= 0
  {
    RunConserves(db, steps);
    var end := Run(db, steps);
    assert Opening(end, p) == Opening(db, p) && Surplus(end, p) == Surplus(db, p);
    assert OpenUnits(db.orders, p) == 0 && LedgerUnits(db.movements, p) == 0;
  }

  /** Units of the IN rows that carry `number` as reference, and those of them recorded directly. */
  function ReferencedUnits(movements: seq<Movement>, number: string): int {
    Sum(movements, (m: Movement) => if m.mtype == IN && m.reference == Some(number) then m.quantity else 0)
  }

  function DirectUnits(movements: seq<Movement>, number: string): int {
    Sum(movements, (m: Movement) => if m.forOrder.None? && m.mtype == IN && m.reference == Some(number) then m.quantity else 0)
  }

  /** The account of one order in every reachable state. */
  lemma OrderAccount(db: Db, steps: seq<Step>, i: int)
    requires Empty(db) && OrderRow(Run(db, steps).orders, i)
    ensures var end := Run(db, steps);
            var o := end.orders[i];
            && 0 <= o.received <= o.quantity
            && o.received == InUnits(end.movements, i)
            && o.received == ReferencedUnits(end.movements, o.number) - DirectUnits(end.movements, o.number)
            && ReceiptUnits(end.receipts, i) == NamedUnits(end.movements, i)
            && (o.born != Received ==> (o.status == Received <==> o.received == o.quantity))
            && (o.born == Received ==> o.status == Received && o.received == 0)
  {
    RunConserves(db, steps);
    var end := Run(db, steps);
    var o := end.orders[i];
    assert OrderOk(end, i);
    var f := (m: Movement) => if m.forOrder == Some(i) then m.quantity else 0;
    var g := (m: Movement) => if m.forOrder.None? && m.mtype == IN && m.reference == Some(o.number) then m.quantity else 0;
    var h := (m: Movement) => if m.mtype == IN && m.reference == Some(o.number) then m.quantity else 0;
    forall m | m in end.movements ensures h(m) == f(m) + g(m) {
      assert MovementOk(end, m);
    }
    SumPlus(end.movements, f, g, h);
    assert ReferencedUnits(end.movements, o.number) == Sum(end.movements, h);
    assert DirectUnits(end.movements, o.number) == Sum(end.movements, g);
  }

  // ---- lifecycle ----

  function Rank(s: Status): nat {
    match s
    case Draft => 3
    case Approved => 2
    case InTransit => 1
    case _ => 0
  }

  /** Effective transitions an order can still see. */
  function Budget(o: Order): int {
    match o.status
    case Draft => o.quantity + 2
    case Approved => o.quantity + 1
    case InTransit => Outstanding(o)
    case _ => 0
  }

  predicate Descends(o: Order, o': Order) {
    && (Rank(o'.status) < Rank(o.status) || (Rank(o'.status) == Rank(o.status) && Outstanding(o') < Outstanding(o)))
    && Outstanding(o') <= Outstanding(o)
    && Budget(o') < Budget(o)
    && o' == o.(status := o'.status, received := o'.received)
  }

  lemma TransitionDescends(db: Db, id: int, to: Status, units: Option<int>, actor: Option<int>, key: Option<string>)
    requires Valid(db) && Transition(db, id, to, units, actor, key).Committed?
    requires Transition(db, id, to, units, actor, key).db != db
    ensures var db' := Transition(db, id, to, units, actor, key).db;
            OrderRow(db'.orders, id) && db'.orders == db.orders[id := db'.orders[id]] && Descends(db.orders[id], db'.orders[id])
  {
    assert OrderOk(db, id);
    if to == Received {
      ReceiveBooks(db, id, if units.Some? then units.value else db.orders[id].quantity, actor, key);
    }
  }

  lemma BudgetBounds(db: Db, i: int)
    requires Valid(db) && OrderRow(db.orders, i)
    ensures 0 <= Budget(db.orders[i]) <= db.orders[i].quantity + 2
  {
  }

  /** Each effective transition of an order lowers (rank, outstanding units) and moves nothing else of it;
      every other step leaves the order as it was, up to the soft-delete mark. */
  lemma StepDescends(db: Db, step: Step, i: int)
    requires Valid(db) && OrderRow(db.orders, i)
    ensures OrderRow(Next(db, step).orders, i)
    ensures var o, o' := db.orders[i], Next(db, step).orders[i];
            if step.Move? && step.id == i && Next(db, step) != db then Descends(o, o') else o' == o.(deleted := o'.deleted)
  {
    match step
    case Move(id, to, units, actor, key) =>
      if Next(db, step) != db {
        TransitionDescends(db, id, to, units, actor, key);
      }
    case _ =>
  }

  function EffectiveMoves(db: Db, steps: seq<Step>, i: int): nat {
    if steps == [] then 0
    else
      var n := |steps| - 1;
      var before := Run(db, steps[..n]);
      EffectiveMoves(db, steps[..n], i) +
      if steps[n].Move? && steps[n].id == i && Next(before, steps[n]) != before then 1 else 0
  }

  /** No order changes by more than quantity + 2 transitions, whatever is asked of it. */
  lemma {:induction false} MovesBounded(db: Db, steps: seq<Step>, i: int)
    requires Valid(db) && i >= 0
    ensures var end := Run(db, steps);
            if OrderRow(end.orders, i) then EffectiveMoves(db, steps, i) + Budget(end.orders[i]) <= end.orders[i].quantity + 2
            else EffectiveMoves(db, steps, i) == 0
  {
    RunConserves(db, steps);
    if steps == [] {
      if OrderRow(db.orders, i) {
        BudgetBounds(db, i);
      }
    } else {
      var n := |steps| - 1;
      var before := Run(db, steps[..n]);
      MovesBounded(db, steps[..n], i);
      RunConserves(db, steps[..n]);
      if OrderRow(before.orders, i) {
        StepDescends(before, steps[n], i);
        BudgetBounds(before, i);
      } else if OrderRow(Run(db, steps).orders, i) {
        BudgetBounds(Run(db, steps), i);
      }
    }
  }

  // ---- receipt keys ----

  predicate KeyedReceive(step: Step, key: string) {
    step.Move? && step.to == Received && step.actor.Some? && step.key == Some(key)
  }

  lemma KeyStays(db: Db, step: Step, key: string)
    requires KeyUsed(db.receipts, key)
    ensures KeyUsed(Next(db, step).receipts, key)
  {
  }

  /** A receive whose key already has a receipt changes nothing. */
  lemma SpentKey(db: Db, step: Step, key: string)
    requires KeyedReceive(step, key) && KeyUsed(db.receipts, key)
    ensures Next(db, step) == db
  {
  }

  /** A receive that changes anything leaves a receipt with its key. */
  lemma EffectSpendsKey(db: Db, step: Step, key: string)
    requires KeyedReceive(step, key) && Next(db, step) != db
    ensures KeyUsed(Next(db, step).receipts, key)
  {
  }

  /** The guard of a keyed receive, as the procedure checks it. */
  predicate Receivable(db: Db, id: int, units: int, user: int, key: string) {
    && OrderRow(db.orders, id) && !db.orders[id].deleted && db.orders[id].status == InTransit
    && 0 < units <= Outstanding(db.orders[id])
    && user in db.users
    && !KeyUsed(db.receipts, key)
    && ProductRow(db.products, db.orders[id].product) && !db.products[db.orders[id].product].deleted
  }

  /** A keyed receive changes the tables if and only if its guard holds, and then it books exactly its units. */
  lemma EffectExactly(db: Db, id: int, units: int, user: int, key: string)
    requires Valid(db)
    ensures var step := Move(id, Received, Some(units), Some(user), Some(key));
            && (Next(db, step) != db <==> Receivable(db, id, units, user, key))
            && (Receivable(db, id, units, user, key) ==> Next(db, step) == Booked(db, id, units, Some(user), Some(key)))
  {
    if OrderRow(db.orders, id) && !db.orders[id].deleted && db.orders[id].status == InTransit {
      assert OrderOk(db, id);
      if Receivable(db, id, units, user, key) {
        ReceiveCommits(db, id, units, user, key);
        ReceiveBooks(db, id, units, Some(user), Some(key));
        assert |Booked(db, id, units, Some(user), Some(key)).movements| == |db.movements| + 1;
      }
    }
  }

  lemma ReceiveCommits(db: Db, id: int, units: int, user: int, key: string)
    requires Valid(db) && Receivable(db, id, units, user, key)
    ensures Receive(db, id, units, Some(user), Some(key)).Committed?
  {
    assert db.products[db.orders[id].product].stock >= 0;
  }

  function EffectiveReceives(db: Db, steps: seq<Step>, key: string): nat {
    if steps == [] then 0
    else
      var n := |steps| - 1;
      var before := Run(db, steps[..n]);
      EffectiveReceives(db, steps[..n], key) +
      if KeyedReceive(steps[n], key) && Next(before, steps[n]) != before then 1 else 0
  }

  /** `steps` without the receives whose key is already spent when their turn comes. */
  function WithoutReplays(db: Db, steps: seq<Step>, key: string): seq<Step> {
    if steps == [] then []
    else
      var n := |steps| - 1;
      WithoutReplays(db, steps[..n], key) +
      if KeyedReceive(steps[n], key) && KeyUsed(Run(db, steps[..n]).receipts, key) then [] else [steps[n]]
  }

  /** Over any run, interleaved with any other steps, at most one receive with a given key has an effect
      on any table, and the run ends as if every later one had never been sent. */
  lemma {:induction false} KeyAppliesOnce(db: Db, steps: seq<Step>, key: string)
    ensures EffectiveReceives(db, steps, key) <= 1
    ensures EffectiveReceives(db, steps, key) == 1 ==> KeyUsed(Run(db, steps).receipts, key)
    ensures KeyUsed(db.receipts, key) ==> EffectiveReceives(db, steps, key) == 0 && KeyUsed(Run(db, steps).receipts, key)
    ensures Run(db, WithoutReplays(db, steps, key)) == Run(db, steps)
  {
    if steps != [] {
      var n := |steps| - 1;
      var before := Run(db, steps[..n]);
      KeyAppliesOnce(db, steps[..n], key);
      if KeyUsed(before.receipts, key) {
        KeyStays(before, steps[n], key);
      }
      if KeyedReceive(steps[n], key) {
        if KeyUsed(before.receipts, key) {
          SpentKey(before, steps[n], key);
        } else if Next(before, steps[n]) != before {
          EffectSpendsKey(before, steps[n], key);
        }
      }
      var kept := WithoutReplays(db, steps[..n], key);
      assert (kept + [steps[n]])[..|kept|] == kept && kept + [] == kept;
      assert Run(db, kept + [steps[n]]) == Next(Run(db, kept), steps[n]);
    }
  }
}
