/** The incremental load of `fact_movement_daily`: dimensions, staged commits, the held watermark, and the
    full rebuild. Movements are listed in id order as they are committed; watermarks and the ids a run has read
    are ranks in that list, so they move up when a movement with an earlier id commits late. */
module Etl {
  import opened Options
  import opened Sums
  import opened StockLedger

  datatype Product = Product(sku: string, warehouse: Option<string>)

  datatype Movement = Movement(product: int, day: int, mtype: MoveType, quantity: int, deleted: bool)

  datatype Key = Key(day: int, warehouse: string, sku: string)

  datatype Qty = Qty(inQty: int, outQty: int, netQty: int)

  /** `stale` is a history field: days on which a movement was soft-deleted, or committed below an id that was
      already read, after the day was last built with all its movements. */
  datatype Db = Db(products: seq<Product>, movements: seq<Movement>, skus: set<string>, names: set<string>,
                   facts: map<Key, Qty>, watermark: int, stale: set<int>)

  // ---- dimensions ----

  function TrimLeft(s: string): string {
    if s != "" && s[0] == ' ' then TrimLeft(s[1..]) else s
  }

  function TrimRight(s: string): string {
    if s != "" && s[|s| - 1] == ' ' then TrimRight(s[..|s| - 1]) else s
  }

  function Trim(s: string): string {
    TrimRight(TrimLeft(s))
  }

  /** A warehouse name the dimension keeps as it is; any other spelling never joins. */
  predicate Clean(name: string) {
    name != "" && name[0] != ' ' && name[|name| - 1] != ' '
  }

  function NewNames(products: seq<Product>): set<string> {
    set p | p in products && p.warehouse.Some? && Trim(p.warehouse.value) != "" :: Trim(p.warehouse.value)
  }

  function NewSkus(products: seq<Product>): set<string> {
    set p | p in products :: p.sku
  }

  lemma {:induction false} TrimRightClean(s: string)
    ensures TrimRight(s) == "" || TrimRight(s)[|TrimRight(s)| - 1] != ' '
    ensures TrimRight(s) <= s
  {
    if s != "" && s[|s| - 1] == ' ' {
      TrimRightClean(s[..|s| - 1]);
    }
  }

  lemma {:induction false} TrimLeftClean(s: string)
    ensures TrimLeft(s) == "" || TrimLeft(s)[0] != ' '
  {
    if s != "" && s[0] == ' ' {
      TrimLeftClean(s[1..]);
    }
  }

  lemma TrimClean(s: string)
    ensures Trim(s) == "" || Clean(Trim(s))
    ensures Clean(s) ==> Trim(s) == s
  {
    TrimLeftClean(s);
    TrimRightClean(TrimLeft(s));
  }

  function Blanks(n: nat): string {
    seq(n, i => ' ')
  }

  lemma {:induction false} TrimLeftBlanks(s: string) returns (n: nat)
    ensures s == Blanks(n) + TrimLeft(s)
  {
    if s != "" && s[0] == ' ' {
      n := TrimLeftBlanks(s[1..]);
      n := n + 1;
    } else {
      n := 0;
    }
  }

  lemma {:induction false} TrimRightBlanks(s: string) returns (n: nat)
    ensures s == TrimRight(s) + Blanks(n)
  {
    if s != "" && s[|s| - 1] == ' ' {
      n := TrimRightBlanks(s[..|s| - 1]);
      n := n + 1;
    } else {
      n := 0;
    }
  }

  /** Trimming takes blanks off both ends, all of them, and nothing else. */
  lemma TrimExactly(s: string) returns (left: nat, right: nat)
    ensures s == Blanks(left) + Trim(s) + Blanks(right)
    ensures Trim(s) == "" || (Trim(s)[0] != ' ' && Trim(s)[|Trim(s)| - 1] != ' ')
  {
    left := TrimLeftBlanks(s);
    right := TrimRightBlanks(TrimLeft(s));
    TrimClean(s);
  }

  lemma {:induction false} TrimLeftOf(n: nat, s: string)
    requires s == "" || s[0] != ' '
    ensures TrimLeft(Blanks(n) + s) == s
  {
    if n == 0 {
      assert Blanks(0) + s == s;
    } else {
      assert (Blanks(n) + s)[1..] == Blanks(n - 1) + s;
      TrimLeftOf(n - 1, s);
    }
  }

  lemma {:induction false} TrimRightOf(s: string, n: nat)
    requires s == "" || s[|s| - 1] != ' '
    ensures TrimRight(s + Blanks(n)) == s
  {
    if n == 0 {
      assert s + Blanks(0) == s;
    } else {
      assert (s + Blanks(n))[..|s| + n - 1] == s + Blanks(n - 1);
      TrimRightOf(s, n - 1);
    }
  }

  /** `raw` is `name` between blanks. */
  ghost predicate Padded(name: string, raw: string) {
    exists a: nat, b: nat :: raw == Blanks(a) + name + Blanks(b)
  }

  /** The names the dimension takes: those that are not empty and neither begin nor end with a blank, and that some
      product's warehouse spells, with or without blanks around them. */
  lemma NamesExactly(products: seq<Product>, name: string)
    ensures name in NewNames(products) <==>
            name != "" && name[0] != ' ' && name[|name| - 1] != ' '
            && exists p :: p in products && p.warehouse.Some? && Padded(name, p.warehouse.value)
  {
    if name in NewNames(products) {
      var p :| p in products && p.warehouse.Some? && Trim(p.warehouse.value) != "" && name == Trim(p.warehouse.value);
      var a, b := TrimExactly(p.warehouse.value);
      assert Padded(name, p.warehouse.value);
    }
    if name != "" && name[0] != ' ' && name[|name| - 1] != ' ' {
      forall p | p in products && p.warehouse.Some? && Padded(name, p.warehouse.value) ensures Trim(p.warehouse.value) == name {
        var a: nat, b: nat :| p.warehouse.value == Blanks(a) + name + Blanks(b);
        assert Blanks(a) + name + Blanks(b) == Blanks(a) + (name + Blanks(b));
        TrimLeftOf(a, name + Blanks(b));
        TrimRightOf(name, b);
      }
    }
  }

  // ---- the aggregation ----

  predicate Joins(db: Db, m: Movement) {
    && 0 <= m.product < |db.products|
    && db.products[m.product].sku in db.skus
    && db.products[m.product].warehouse.Some? && db.products[m.product].warehouse.value in db.names
    && !m.deleted
  }

  /** What the aggregation is meant to cover: live movements of products with a warehouse name. */
  predicate Counts(products: seq<Product>, m: Movement) {
    && 0 <= m.product < |products|
    && products[m.product].warehouse.Some? && Clean(products[m.product].warehouse.value)
    && !m.deleted
  }

  /** Some movement of the day counts but joins nothing yet. */
  predicate Missed(db: Db, d: int) {
    exists m :: m in db.movements && m.day == d && Counts(db.products, m) && !Joins(db, m)
  }

  predicate HasKey(products: seq<Product>, m: Movement, key: Key) {
    && 0 <= m.product < |products|
    && products[m.product].warehouse.Some?
    && key == Key(m.day, products[m.product].warehouse.value, products[m.product].sku)
  }

  // The three CASE expressions of the aggregation, for the rows that `keep` selects.

  function Incoming(keep: Movement -> bool): Movement -> int {
    (m: Movement) => if keep(m) && m.mtype == IN then m.quantity else 0
  }

  function Outgoing(keep: Movement -> bool): Movement -> int {
    (m: Movement) => if keep(m) && m.mtype == OUT then m.quantity else 0
  }

  function NetOf(keep: Movement -> bool): Movement -> int {
    (m: Movement) => if !keep(m) then 0 else if m.mtype == IN then m.quantity else if m.mtype == OUT then -m.quantity else 0
  }

  function Totals(movements: seq<Movement>, keep: Movement -> bool): Qty {
    Qty(Sum(movements, Incoming(keep)),
        Sum(movements, Outgoing(keep)),
        Sum(movements, NetOf(keep)))
  }

  function Joined(db: Db, key: Key): Movement -> bool {
    (m: Movement) => Joins(db, m) && HasKey(db.products, m, key)
  }

  function Meant(products: seq<Product>, key: Key): Movement -> bool {
    (m: Movement) => Counts(products, m) && HasKey(products, m, key)
  }

  /** DELETE the days of the range, INSERT their groups. */
  function Rebuild(db: Db, first: int, last: int): map<Key, Qty> {
    (map key | key in db.facts && !(first <= key.day <= last) :: db.facts[key]) +
    (map key | key in GroupKeys(db, first, last) :: Totals(db.movements, Joined(db, key)))
  }

  function GroupKeys(db: Db, first: int, last: int): set<Key> {
    set m | m in db.movements && Joins(db, m) && first <= m.day <= last
          :: Key(m.day, db.products[m.product].warehouse.value, db.products[m.product].sku)
  }

  /** The fact row of `key` is the group of `keep`: present iff the group has a row, with its totals. */
  ghost predicate Matches(facts: map<Key, Qty>, key: Key, movements: seq<Movement>, keep: Movement -> bool) {
    && (key in facts <==> exists m :: m in movements && keep(m))
    && (key in facts ==> facts[key] == Totals(movements, keep))
  }

  /** The facts of day `d` equal a from-scratch aggregation of all movements. */
  ghost predicate DayGood(db: Db, d: int) {
    forall key: Key :: key.day == d ==> Matches(db.facts, key, db.movements, Meant(db.products, key))
  }

  // ---- runs ----

  /** A run past its reads: `first`..`last` is the range it rebuilds, `maxId` its watermark to be. */
  datatype Range = Incremental(first: int, last: int, maxId: int) | Full(first: int, last: int, maxId: int)

  /** Counted: the incremental branch has read MAX(id) but not the day bounds. Bounded: the full branch has
      read the first day but not MAX(id). At(range, n): n stages have committed. */
  datatype Phase = Idle | Counted(maxId: int) | Bounded(first: int, last: int) | At(range: Range, stage: int)

  datatype State = State(db: Db, phase: Phase)

  datatype Step =
    | Arrive(at: int, product: int, day: int, mtype: MoveType, quantity: int)
    | AddProduct(sku: string, warehouse: Option<string>)
    | SoftDelete(i: int)
    | Start(force: bool, today: int)
    | ReadRest(today: int)
    | CommitStage
    | Crash

  function MinDay(movements: seq<Movement>, default: int): int {
    if movements == [] then default
    else
      var n := |movements| - 1;
      if n == 0 then movements[0].day
      else
        var rest := MinDay(movements[..n], default);
        if movements[n].day < rest then movements[n].day else rest
  }

  function MaxDay(movements: seq<Movement>, default: int): int {
    if movements == [] then default
    else
      var n := |movements| - 1;
      Max(MaxDay(movements[..n], default), movements[n].day)
  }

  function StillStale(db: Db, first: int, last: int): set<int> {
    set d | d in db.stale && (!(first <= d <= last) || Missed(db, d))
  }

  function Inserted(movements: seq<Movement>, at: int, x: Movement): seq<Movement>
    requires 0 <= at <= |movements|
  {
    movements[..at] + [x] + movements[at..]
  }

  /** The rank of the same id after a commit at rank `at`. */
  function Moved(rank: int, at: int): int {
    if at < rank then rank + 1 else rank
  }

  function MovedPhase(phase: Phase, at: int): Phase {
    match phase
    case Counted(maxId) => Counted(Moved(maxId, at))
    case At(Incremental(first, last, maxId), stage) => At(Incremental(first, last, Moved(maxId, at)), stage)
    case At(Full(first, last, maxId), stage) => At(Full(first, last, Moved(maxId, at)), stage)
    case _ => phase
  }

  /** A movement commits below an id that a run has finished with or taken its range for. */
  predicate Late(s: State, at: int) {
    at < s.db.watermark || (s.phase.At? && at < s.phase.range.maxId)
  }

  /** One committed stage: dates (with the truncation of a full rebuild), dimensions, facts, watermark. */
  function Stage(db: Db, range: Range, stage: int): Db {
    if stage == 0 then
      if range.Full? then db.(skus := {}, names := {}, facts := map[], watermark := 0) else db
    else if stage == 1 then db.(skus := db.skus + NewSkus(db.products), names := db.names + NewNames(db.products))
    else if stage == 2 then
      db.(facts := Rebuild(db, range.first, range.last), stale := StillStale(db, range.first, range.last))
    else db.(watermark := range.maxId)
  }

  function Next(s: State, step: Step): State {
    var db := s.db;
    match step
    case Arrive(at, product, day, mtype, quantity) =>
      if 0 <= product < |db.products| && 0 <= at <= |db.movements|
      then State(db.(movements := Inserted(db.movements, at, Movement(product, day, mtype, quantity, false)),
                     watermark := Moved(db.watermark, at),
                     stale := if Late(s, at) then db.stale + {day} else db.stale),
                 MovedPhase(s.phase, at))
      else s
    case AddProduct(sku, warehouse) => s.(db := db.(products := db.products + [Product(sku, warehouse)]))
    case SoftDelete(i) =>
      if 0 <= i < |db.movements|
      then s.(db := db.(movements := db.movements[i := db.movements[i].(deleted := true)],
                        stale := db.stale + {db.movements[i].day})) else s
    case Start(force, today) =>
      if !s.phase.Idle? then s
      else if db.facts != map[] && !force then
        if |db.movements| <= db.watermark then s else s.(phase := Counted(|db.movements|))
      else s.(phase := Bounded(MinDay(db.movements, today - 90), today))
    case ReadRest(today) =>
      (match s.phase
      case Counted(maxId) =>
        var recent := if 0 <= db.watermark <= |db.movements| then db.movements[db.watermark..] else db.movements;
        s.(phase := At(Incremental(MinDay(recent, today), Max(MaxDay(recent, today), today), maxId), 0))
      case Bounded(first, last) => s.(phase := At(Full(first, last, |db.movements|), 0))
      case _ => s)
    case CommitStage =>
      if !s.phase.At? then s
      else State(Stage(db, s.phase.range, s.phase.stage),
                 if 0 <= s.phase.stage < 3 then At(s.phase.range, s.phase.stage + 1) else Idle)
    case Crash => s.(phase := Idle)
  }

  function Exec(s: State, steps: seq<Step>): State {
    if steps == [] then s else Next(Exec(s, steps[..|steps| - 1]), steps[|steps| - 1])
  }
}
