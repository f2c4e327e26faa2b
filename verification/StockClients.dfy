/** Clients of the movement service: an early check against a balance read without a lock, then the locked
    `sp_movement_record`. Reads and records of any number of clients interleave with each other and with
    every other purchasing step, receipts included. */
module StockClients {
  import opened Options
  import opened Sums
  import opened StockLedger
  import opened Purchasing
  import opened PurchasingInvariants

  datatype Stage = New | Checked | Refused | Landed | Failed(error: Error)

  datatype Client = Client(product: int, mtype: MoveType, quantity: int, reference: Option<string>, user: Option<int>, stage: Stage)

  datatype System = System(db: Db, clients: seq<Client>)

  datatype Event = Read(c: int) | Record(c: int) | Other(step: Step)

  /** The early check, on the stock it happened to read. */
  predicate Friendly(c: Client, seen: int) {
    match c.mtype
    case OUT | ADJUSTMENT => seen + Delta(c.mtype, c.quantity) >= 0
    case _ => true
  }

  function ReadStage(db: Db, c: Client): Stage {
    if c.mtype.UnknownType? || c.quantity <= 0 then Refused
    else if !ProductRow(db.products, c.product) || db.products[c.product].deleted then Refused
    else if !Friendly(c, db.products[c.product].stock) then Refused
    else Checked
  }

  function Ask(c: Client): Step {
    Step.Record(c.product, c.mtype, c.quantity, c.reference, c.user)
  }

  function Next(s: System, e: Event): System {
    match e
    case Read(i) =>
      if 0 <= i < |s.clients| && s.clients[i].stage == New
      then s.(clients := s.clients[i := s.clients[i].(stage := ReadStage(s.db, s.clients[i]))]) else s
    case Record(i) =>
      if 0 <= i < |s.clients| && s.clients[i].stage == Checked then
        var c := s.clients[i];
        match Apply(s.db, Ask(c)) {
          case Committed(db') => System(db', s.clients[i := c.(stage := Landed)])
          case RolledBack(error) => s.(clients := s.clients[i := c.(stage := Failed(error))])
        }
      else s
    case Other(step) => s.(db := Purchasing.Next(s.db, step))
  }

  function Exec(s: System, events: seq<Event>): System {
    if events == [] then s else Next(Exec(s, events[..|events| - 1]), events[|events| - 1])
  }

  /** Units the committed clients moved of product `p`. */
  function Moved(clients: seq<Client>, p: int): int {
    Sum(clients, (c: Client) => if c.product == p && c.stage == Landed then Delta(c.mtype, c.quantity) else 0)
  }

  /** Units the other steps of the run put on the ledger of product `p`. */
  function MovedByOthers(s: System, events: seq<Event>, p: int): int {
    if events == [] then 0
    else
      var before := Exec(s, events[..|events| - 1]).db;
      var e := events[|events| - 1];
      MovedByOthers(s, events[..|events| - 1], p)
      + if e.Other? then LedgerUnits(Purchasing.Next(before, e.step).movements, p) - LedgerUnits(before.movements, p) else 0
  }

  /** A client's step moves the stock by what its own committed movement says, and by nothing else. */
  lemma ClientMoves(s: System, e: Event, p: int)
    requires ProductRow(s.db.products, p) && !e.Other?
    ensures var s' := Next(s, e);
            && ProductRow(s'.db.products, p)
            && s'.db.products[p].stock - Moved(s'.clients, p) == s.db.products[p].stock - Moved(s.clients, p)
  {
    var i := e.c;
    if 0 <= i < |s.clients| {
      var c' := Next(s, e).clients[i];
      SumUpdate(s.clients, i, c', (c: Client) => if c.product == p && c.stage == Landed then Delta(c.mtype, c.quantity) else 0);
      assert s.clients[i := s.clients[i]] == s.clients;
    }
  }

  /** As tables go, a client's step is a movement step or none. */
  lemma ClientKeeps(s: System, e: Event)
    requires Valid(s.db) && !e.Other?
    ensures Valid(Next(s, e).db)
  {
    if e.Record? && 0 <= e.c < |s.clients| && s.clients[e.c].stage == Checked {
      StepKeeps(s.db, Ask(s.clients[e.c]));
    }
  }

  lemma OtherMoves(db: Db, step: Step, p: int)
    requires Valid(db) && ProductRow(db.products, p)
    ensures var db' := Purchasing.Next(db, step);
            && Valid(db') && ProductRow(db'.products, p)
            && db'.products[p].stock - db.products[p].stock == LedgerUnits(db'.movements, p) - LedgerUnits(db.movements, p)
  {
    StepKeeps(db, step);
    assert Opening(Purchasing.Next(db, step), p) == Opening(db, p);
  }

  /** No update is lost: after any interleaving the stock is where it started plus what the clients that
      committed moved plus what the other steps, receipts included, put on the ledger; never below zero. */
  lemma {:induction false} NoLostUpdates(s: System, events: seq<Event>, p: int)
    requires Valid(s.db) && ProductRow(s.db.products, p)
    requires forall c :: c in s.clients ==> c.stage == New
    ensures var end := Exec(s, events);
            && Valid(end.db) && ProductRow(end.db.products, p)
            && end.db.products[p].stock == s.db.products[p].stock + Moved(end.clients, p) + MovedByOthers(s, events, p)
            && end.db.products[p].stock >= 0
  {
    if events == [] {
      SumZero(s.clients, (c: Client) => if c.product == p && c.stage == Landed then Delta(c.mtype, c.quantity) else 0);
    } else {
      var n := |events| - 1;
      NoLostUpdates(s, events[..n], p);
      var before := Exec(s, events[..n]);
      if events[n].Other? {
        OtherMoves(before.db, events[n].step, p);
      } else {
        ClientMoves(before, events[n], p);
        ClientKeeps(before, events[n]);
      }
    }
  }

  /** On an unchanged balance the early check is exact: a well-formed request for a live product and a known
      user commits iff it passed; only a stale read makes the two differ. */
  lemma FreshCheckIsExact(db: Db, c: Client)
    requires ProductRow(db.products, c.product) && !db.products[c.product].deleted && db.products[c.product].stock >= 0
    requires !c.mtype.UnknownType? && c.quantity > 0 && (c.user.Some? ==> c.user.value in db.users)
    ensures ReadStage(db, c) == Checked <==> Apply(db, Ask(c)).Committed?
  {
  }

  /** The early check passes exactly for a known type, a positive quantity, a live product and, for an OUT or an
      ADJUSTMENT, a balance that does not fall below zero. */
  lemma ReadExactly(db: Db, c: Client)
    ensures ReadStage(db, c) == Checked || ReadStage(db, c) == Refused
    ensures ReadStage(db, c) == Checked <==>
            c.mtype in {IN, OUT, RETURN, ADJUSTMENT} && c.quantity > 0
            && 0 <= c.product < |db.products| && !db.products[c.product].deleted
            && (c.mtype == OUT ==> c.quantity <= db.products[c.product].stock)
            && (c.mtype == ADJUSTMENT ==> 0 <= db.products[c.product].stock + c.quantity)
  {
  }

  // ---- the service as it runs ----

  /** One request: the early check on the product row it read, if any, then the locked step. `newStock` is the
      balance the service reports, computed from that read. */
  method Serve(tables: Tables, seen: Option<Product>, c: Client) returns (stage: Stage, newStock: int)
    modifies tables
    ensures var passed := c.mtype in {IN, OUT, RETURN, ADJUSTMENT} && c.quantity > 0 && seen.Some?
                          && (c.mtype == OUT ==> c.quantity <= seen.value.stock)
                          && (c.mtype == ADJUSTMENT ==> 0 <= seen.value.stock + c.quantity);
            && (!passed ==> stage == Refused && tables.View() == old(tables.View()))
            && (passed ==>
                  && newStock == (if c.mtype == OUT then seen.value.stock - c.quantity else seen.value.stock + c.quantity)
                  && tables.View() == Purchasing.Next(old(tables.View()), Ask(c))
                  && (stage == Landed <==> Apply(old(tables.View()), Ask(c)).Committed?)
                  && (stage.Landed? || stage.Failed?))
  {
    newStock := 0;
    if c.mtype.UnknownType? || c.quantity <= 0 || seen.None? {
      return Refused, newStock;
    }
    newStock := seen.value.stock;
    if c.mtype == OUT {
      if newStock - c.quantity < 0 {
        return Refused, newStock;
      }
      newStock := newStock - c.quantity;
    } else if c.mtype == ADJUSTMENT {
      if newStock + c.quantity < 0 {
        return Refused, newStock;
      }
      newStock := newStock + c.quantity;
    } else {
      newStock := newStock + c.quantity;
    }
    var reply := tables.MovementRecord(c.product, c.mtype, c.quantity, c.reference, c.user, None);
    stage := if reply.Ok? then Landed else Failed(reply.error);
  }
}
