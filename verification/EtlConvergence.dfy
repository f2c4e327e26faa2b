/** After any history of arrivals, soft deletes, runs and crashes, the fact table is right on every day the
    next run owes nothing for, and a finished run owes only what came after its reads. */
module EtlConvergence {
  import opened Options
  import opened Sums
  import opened StockLedger
  import opened Etl

  // ---- totals ----

  lemma TotalsSame(movements: seq<Movement>, f: Movement -> bool, g: Movement -> bool)
    requires forall m :: m in movements ==> f(m) == g(m)
    ensures Totals(movements, f) == Totals(movements, g)
    ensures (exists m :: m in movements && f(m)) <==> (exists m :: m in movements && g(m))
  {
    SumSame(movements, Incoming(f), Incoming(g));
    SumSame(movements, Outgoing(f), Outgoing(g));
    SumSame(movements, NetOf(f), NetOf(g));
  }

  /** Rows outside the group may come, go or change. */
  lemma TotalsPointwise(a: seq<Movement>, b: seq<Movement>, keep: Movement -> bool)
    requires |a| == |b| && forall i :: 0 <= i < |a| ==> a[i] == b[i] || (!keep(a[i]) && !keep(b[i]))
    ensures Totals(a, keep) == Totals(b, keep)
    ensures (exists m :: m in a && keep(m)) <==> (exists m :: m in b && keep(m))
  {
    SumPointwise(a, b, Incoming(keep));
    SumPointwise(a, b, Outgoing(keep));
    SumPointwise(a, b, NetOf(keep));
    forall m | m in a && keep(m) ensures m in b {
      var i :| 0 <= i < |a| && a[i] == m;
      assert b[i] == m;
    }
    forall m | m in b && keep(m) ensures m in a {
      var i :| 0 <= i < |b| && b[i] == m;
      assert a[i] == m;
    }
  }

  lemma TotalsAppend(movements: seq<Movement>, x: Movement, keep: Movement -> bool)
    requires !keep(x)
    ensures Totals(movements + [x], keep) == Totals(movements, keep)
    ensures (exists m :: m in movements + [x] && keep(m)) <==> (exists m :: m in movements && keep(m))
  {
  }

  // ---- one statement ----

  /** A key of the range holds the group of its joined movements afterwards, any other key what it held. */
  lemma RebuildKey(db: Db, first: int, last: int, key: Key)
    ensures first <= key.day <= last ==> Matches(Rebuild(db, first, last), key, db.movements, Joined(db, key))
    ensures !(first <= key.day <= last) ==>
              (key in Rebuild(db, first, last) <==> key in db.facts)
              && (key in db.facts ==> Rebuild(db, first, last)[key] == db.facts[key])
  {
    if m :| m in db.movements && Joined(db, key)(m) && first <= m.day <= last {
      assert Key(m.day, db.products[m.product].warehouse.value, db.products[m.product].sku) in GroupKeys(db, first, last);
    }
  }

  lemma MatchesSame(facts: map<Key, Qty>, key: Key, movements: seq<Movement>, f: Movement -> bool, g: Movement -> bool)
    requires Matches(facts, key, movements, f) && forall m :: m in movements ==> f(m) == g(m)
    ensures Matches(facts, key, movements, g)
  {
    TotalsSame(movements, f, g);
  }

  /** Rebuilding a range: outside it nothing moves; inside it every day whose movements all join is right. */
  lemma RebuildDay(db: Db, first: int, last: int, d: int)
    requires first <= d <= last ==> forall m :: m in db.movements && m.day == d && Counts(db.products, m) ==> Joins(db, m)
    requires forall name :: name in db.names ==> Clean(name)
    requires first <= d <= last || DayGood(db, d)
    ensures DayGood(db.(facts := Rebuild(db, first, last)), d)
  {
    forall key: Key | key.day == d
      ensures Matches(Rebuild(db, first, last), key, db.movements, Meant(db.products, key))
    {
      RebuildKey(db, first, last, key);
      if first <= d <= last {
        MatchesSame(Rebuild(db, first, last), key, db.movements, Joined(db, key), Meant(db.products, key));
      } else {
        assert Matches(db.facts, key, db.movements, Meant(db.products, key));
      }
    }
  }

  lemma TotalsInsert(movements: seq<Movement>, at: int, x: Movement, keep: Movement -> bool)
    requires 0 <= at <= |movements| && !keep(x)
    ensures Totals(Inserted(movements, at, x), keep) == Totals(movements, keep)
    ensures (exists m :: m in Inserted(movements, at, x) && keep(m)) <==> (exists m :: m in movements && keep(m))
  {
    var a, b := movements[..at], movements[at..];
    assert movements == a + b;
    TotalsAppend(a, x, keep);
    TotalsConcat(a, b, keep);
    TotalsConcat(a + [x], b, keep);
  }

  lemma TotalsConcat(a: seq<Movement>, b: seq<Movement>, keep: Movement -> bool)
    ensures var t, u := Totals(a, keep), Totals(b, keep);
            Totals(a + b, keep) == Qty(t.inQty + u.inQty, t.outQty + u.outQty, t.netQty + u.netQty)
  {
    SumConcat(a, b, Incoming(keep));
    SumConcat(a, b, Outgoing(keep));
    SumConcat(a, b, NetOf(keep));
  }

  lemma ArriveDay(db: Db, at: int, x: Movement, d: int)
    requires 0 <= at <= |db.movements| && DayGood(db, d) && x.day != d
    ensures DayGood(db.(movements := Inserted(db.movements, at, x)), d)
  {
    forall key: Key | key.day == d
      ensures Matches(db.facts, key, Inserted(db.movements, at, x), Meant(db.products, key))
    {
      assert Matches(db.facts, key, db.movements, Meant(db.products, key));
      TotalsInsert(db.movements, at, x, Meant(db.products, key));
    }
  }

  lemma DeleteDay(db: Db, i: int, d: int)
    requires 0 <= i < |db.movements| && DayGood(db, d) && db.movements[i].day != d
    ensures DayGood(db.(movements := db.movements[i := db.movements[i].(deleted := true)]), d)
  {
    var after := db.movements[i := db.movements[i].(deleted := true)];
    forall key: Key | key.day == d ensures Matches(db.facts, key, after, Meant(db.products, key)) {
      assert Matches(db.facts, key, db.movements, Meant(db.products, key));
      TotalsPointwise(db.movements, after, Meant(db.products, key));
    }
  }

  lemma ProductDay(db: Db, p: Product, d: int)
    requires DayGood(db, d) && forall m :: m in db.movements ==> 0 <= m.product < |db.products|
    ensures DayGood(db.(products := db.products + [p]), d)
  {
    forall key: Key | key.day == d ensures Matches(db.facts, key, db.movements, Meant(db.products + [p], key)) {
      assert Matches(db.facts, key, db.movements, Meant(db.products, key));
      TotalsSame(db.movements, Meant(db.products, key), Meant(db.products + [p], key));
    }
  }

  /** A day without movements and without facts is right. */
  lemma EmptyDay(db: Db, d: int)
    requires forall m :: m in db.movements ==> m.day != d
    requires forall key :: key in db.facts ==> key.day != d
    ensures DayGood(db, d)
  {
  }

  // ---- the invariant ----

  /** Day `d` has a movement at position `from` or later. */
  ghost predicate Owed(db: Db, from: int, d: int) {
    exists i :: 0 <= i < |db.movements| && from <= i && db.movements[i].day == d
  }

  /** Every day is right that has no movement from `from` on and no later soft delete or late commit. */
  ghost predicate GoodExceptOwed(db: Db, from: int) {
    forall d :: d !in db.stale && !Owed(db, from, d) ==> DayGood(db, d)
  }

  ghost predicate Base(db: Db) {
    && 0 <= db.watermark <= |db.movements|
    && (forall m :: m in db.movements ==> 0 <= m.product < |db.products|)
    && (forall name :: name in db.names ==> Clean(name))
    && GoodExceptOwed(db, db.watermark)
  }

  ghost predicate InRange(m: Movement, range: Range) {
    range.first <= m.day <= range.last
  }

  ghost predicate Known(db: Db, m: Movement) {
    Counts(db.products, m) ==> Joins(db, m)
  }

  /** What a run has read is in its range and, once the dimensions are built, joins, up to late commits. */
  ghost predicate Covered(db: Db, range: Range, stage: int, i: int)
    requires 0 <= i < |db.movements|
  {
    var m := db.movements[i];
    m.day in db.stale ||
    ((range.Full? || db.watermark <= i ==> InRange(m, range)) && (stage >= 2 ==> Known(db, m)))
  }

  ghost predicate RunOk(db: Db, range: Range, stage: int) {
    && 0 <= stage <= 3
    && 0 <= range.maxId <= |db.movements|
    && (range.Incremental? ==> db.watermark <= range.maxId)
    && (range.Full? && stage >= 1 ==> db.watermark == 0)
    && (forall i :: 0 <= i < range.maxId ==> Covered(db, range, stage, i))
    && (stage == 3 ==> GoodExceptOwed(db, range.maxId))
  }

  ghost predicate Valid(s: State) {
    && Base(s.db)
    && match s.phase
       case Idle => true
       case Counted(maxId) => s.db.watermark <= maxId <= |s.db.movements|
       case Bounded(_, _) => true
       case At(range, stage) => RunOk(s.db, range, stage)
  }

  /** A full rebuild reads its range before the last id; its range must cover what it read. It does unless a
      movement is dated after today, or one dated before the first day was committed between the reads. */
  ghost predicate Timely(s: State, step: Step) {
    step.ReadRest? && s.phase.Bounded? ==> forall m :: m in s.db.movements ==> s.phase.first <= m.day <= s.phase.last
  }

  lemma {:induction false} MinMaxDays(movements: seq<Movement>, default: int)
    ensures forall m :: m in movements ==> MinDay(movements, default) <= m.day <= MaxDay(movements, default)
  {
    if movements != [] {
      MinMaxDays(movements[..|movements| - 1], default);
    }
  }

  lemma InsertedAt(movements: seq<Movement>, at: int, x: Movement)
    requires 0 <= at <= |movements|
    ensures var after := Inserted(movements, at, x);
            && |after| == |movements| + 1 && after[at] == x
            && (forall i :: 0 <= i < at ==> after[i] == movements[i])
            && (forall i :: at < i < |after| ==> after[i] == movements[i - 1])
  {
  }

  lemma ArrivedGood(db: Db, db': Db, at: int, x: Movement, from: int)
    requires 0 <= at <= |db.movements| && GoodExceptOwed(db, from) && db.stale <= db'.stale
    requires db'.movements == Inserted(db.movements, at, x) && db'.facts == db.facts && db'.products == db.products
    requires at < from ==> x.day in db'.stale
    ensures GoodExceptOwed(db', Moved(from, at))
  {
    InsertedAt(db.movements, at, x);
    forall d | d !in db'.stale && !Owed(db', Moved(from, at), d) ensures DayGood(db', d) {
      assert db'.movements[at] == x;
      forall i | 0 <= i < |db.movements| && from <= i ensures db.movements[i].day != d {
        assert db'.movements[if i < at then i else i + 1] == db.movements[i];
      }
      assert !Owed(db, from, d);
      ArriveDay(db, at, x, d);
    }
  }

  lemma ArriveKeeps(s: State, at: int, product: int, day: int, mtype: MoveType, quantity: int)
    requires Valid(s) && 0 <= product < |s.db.products| && 0 <= at <= |s.db.movements|
    ensures Valid(Next(s, Arrive(at, product, day, mtype, quantity)))
  {
    var x := Movement(product, day, mtype, quantity, false);
    var s' := Next(s, Arrive(at, product, day, mtype, quantity));
    InsertedAt(s.db.movements, at, x);
    ArrivedGood(s.db, s'.db, at, x, s.db.watermark);
    forall m | m in s'.db.movements ensures 0 <= m.product < |s'.db.products| {
      var i :| 0 <= i < |s'.db.movements| && s'.db.movements[i] == m;
      assert i != at ==> s.db.movements[if i < at then i else i - 1] in s.db.movements;
    }
    if s.phase.At? {
      ArriveCovered(s, s', at, x);
      if s.phase.stage == 3 {
        ArrivedGood(s.db, s'.db, at, x, s.phase.range.maxId);
      }
    }
  }

  lemma ArriveCovered(s: State, s': State, at: int, x: Movement)
    requires s.phase.At? && RunOk(s.db, s.phase.range, s.phase.stage)
    requires 0 <= at <= |s.db.movements| && 0 <= x.product < |s.db.products| && !x.deleted
    requires s' == Next(s, Arrive(at, x.product, x.day, x.mtype, x.quantity))
    ensures s'.phase.At? && s'.phase.range.maxId <= |s'.db.movements|
    ensures forall i :: 0 <= i < s'.phase.range.maxId ==> Covered(s'.db, s'.phase.range, s'.phase.stage, i)
  {
    InsertedAt(s.db.movements, at, x);
    forall i | 0 <= i < s'.phase.range.maxId ensures Covered(s'.db, s'.phase.range, s'.phase.stage, i) {
      if i != at {
        assert Covered(s.db, s.phase.range, s.phase.stage, if i < at then i else i - 1);
      }
    }
  }

  lemma DeleteKeeps(s: State, i: int)
    requires Valid(s) && 0 <= i < |s.db.movements|
    ensures Valid(Next(s, SoftDelete(i)))
  {
    var db' := Next(s, SoftDelete(i)).db;
    assert forall k :: 0 <= k < |s.db.movements| ==> db'.movements[k].day == s.db.movements[k].day && db'.movements[k].product == s.db.movements[k].product;
    forall from, d | d !in db'.stale && !Owed(db', from, d) && GoodExceptOwed(s.db, from) ensures DayGood(db', d) {
      forall k | 0 <= k < |s.db.movements| && from <= k ensures s.db.movements[k].day != d {
        assert db'.movements[k].day == s.db.movements[k].day;
      }
      DeleteDay(s.db, i, d);
    }
    forall m | m in db'.movements ensures 0 <= m.product < |db'.products| {
      var k :| 0 <= k < |db'.movements| && db'.movements[k] == m;
      assert s.db.movements[k] in s.db.movements;
    }
    if s.phase.At? {
      forall k | 0 <= k < s.phase.range.maxId ensures Covered(db', s.phase.range, s.phase.stage, k) {
        assert Covered(s.db, s.phase.range, s.phase.stage, k);
      }
    }
  }

  lemma AddProductKeeps(s: State, p: Product)
    requires Valid(s)
    ensures Valid(s.(db := s.db.(products := s.db.products + [p])))
  {
    var db' := s.db.(products := s.db.products + [p]);
    forall from, d | d !in db'.stale && !Owed(db', from, d) && GoodExceptOwed(s.db, from) ensures DayGood(db', d) {
      assert !Owed(s.db, from, d);
      ProductDay(s.db, p, d);
    }
    if s.phase.At? {
      forall k | 0 <= k < s.phase.range.maxId ensures Covered(db', s.phase.range, s.phase.stage, k) {
        assert Covered(s.db, s.phase.range, s.phase.stage, k) && s.db.movements[k] in s.db.movements;
      }
    }
  }

  lemma ReadKeeps(s: State, today: int)
    requires Valid(s) && Timely(s, ReadRest(today))
    ensures Valid(Next(s, ReadRest(today)))
  {
    if s.phase.Counted? {
      var recent := s.db.movements[s.db.watermark..];
      MinMaxDays(recent, today);
      var range := Next(s, ReadRest(today)).phase.range;
      forall i | 0 <= i < s.phase.maxId ensures Covered(s.db, range, 0, i) {
        assert i >= s.db.watermark ==> s.db.movements[i] == recent[i - s.db.watermark];
      }
    }
  }

  lemma DimsKnow(db: Db, m: Movement)
    requires 0 <= m.product < |db.products|
    ensures Known(db.(skus := db.skus + NewSkus(db.products), names := db.names + NewNames(db.products)), m)
  {
  }

  lemma FactsKeep(db: Db, range: Range)
    requires Base(db) && RunOk(db, range, 2)
    ensures GoodExceptOwed(Stage(db, range, 2), range.maxId)
  {
    var db' := Stage(db, range, 2);
    forall d | d !in db'.stale && !Owed(db', range.maxId, d) ensures DayGood(db', d) {
      if range.first <= d <= range.last {
        InRangeJoins(db, range, d);
      } else {
        OutOfRangeIsNotOwed(db, range, d);
      }
      RebuildDay(db, range.first, range.last, d);
      assert DayGood(db.(facts := Rebuild(db, range.first, range.last)), d);
    }
  }

  lemma InRangeJoins(db: Db, range: Range, d: int)
    requires RunOk(db, range, 2) && range.first <= d <= range.last
    requires d !in Stage(db, range, 2).stale && !Owed(Stage(db, range, 2), range.maxId, d)
    ensures forall m :: m in db.movements && m.day == d && Counts(db.products, m) ==> Joins(db, m)
  {
    forall m | m in db.movements && m.day == d && Counts(db.products, m) ensures Joins(db, m) {
      var i :| 0 <= i < |db.movements| && db.movements[i] == m;
      assert i < range.maxId && Covered(db, range, 2, i);
      assert d in db.stale ==> !Missed(db, d);
    }
  }

  lemma OutOfRangeIsNotOwed(db: Db, range: Range, d: int)
    requires Base(db) && RunOk(db, range, 2) && !(range.first <= d <= range.last)
    requires d !in Stage(db, range, 2).stale && !Owed(Stage(db, range, 2), range.maxId, d)
    ensures d !in db.stale && !Owed(db, db.watermark, d)
  {
    forall i | db.watermark <= i < |db.movements| ensures db.movements[i].day != d {
      assert i < range.maxId ==> Covered(db, range, 2, i);
      assert i >= range.maxId && db.movements[i].day == d ==> Owed(Stage(db, range, 2), range.maxId, d);
    }
  }

  lemma OwedLess(db: Db, from: int, to: int)
    requires from <= to && GoodExceptOwed(db, to)
    ensures GoodExceptOwed(db, from)
  {
  }

  lemma CommitKeeps(s: State)
    requires Valid(s)
    ensures Valid(Next(s, CommitStage))
  {
    if s.phase.At? {
      var db, range, stage := s.db, s.phase.range, s.phase.stage;
      var db' := Stage(db, range, stage);
      if stage == 0 {
        forall i | 0 <= i < range.maxId ensures Covered(db', range, 1, i) {
          assert Covered(db, range, 0, i);
        }
        if range.Full? {
          forall d | !Owed(db', 0, d) ensures DayGood(db', d) {
            EmptyDay(db', d);
          }
        }
      } else if stage == 1 {
        forall m | m in db.movements ensures Known(db', m) {
          DimsKnow(db, m);
        }
        forall i | 0 <= i < range.maxId ensures Covered(db', range, 2, i) {
          assert Covered(db, range, 1, i) && Known(db', db'.movements[i]);
        }
        forall name | name in db'.names ensures Clean(name) {
          if name !in db.names {
            var p :| p in db.products && p.warehouse.Some? && name == Trim(p.warehouse.value);
            TrimClean(p.warehouse.value);
          }
        }
        forall d | DayGood(db, d) ensures DayGood(db', d) {
        }
        assert GoodExceptOwed(db', db'.watermark) by {
          forall d | d !in db'.stale && !Owed(db', db'.watermark, d) ensures DayGood(db', d) {
            assert !Owed(db, db.watermark, d);
          }
        }
      } else if stage == 2 {
        FactsKeep(db, range);
        OwedLess(db', db'.watermark, range.maxId);
        forall i | 0 <= i < range.maxId ensures Covered(db', range, 3, i) {
          assert Covered(db, range, 2, i);
        }
      } else {
        forall d | d !in db'.stale && !Owed(db', range.maxId, d) ensures DayGood(db', d) {
          assert !Owed(db, range.maxId, d) && DayGood(db, d);
        }
      }
    }
  }

  lemma StepKeeps(s: State, step: Step)
    requires Valid(s) && Timely(s, step)
    ensures Valid(Next(s, step))
  {
    match step
    case Arrive(at, product, day, mtype, quantity) =>
      if 0 <= product < |s.db.products| && 0 <= at <= |s.db.movements| {
        ArriveKeeps(s, at, product, day, mtype, quantity);
      }
    case AddProduct(sku, warehouse) => AddProductKeeps(s, Product(sku, warehouse));
    case SoftDelete(i) =>
      if 0 <= i < |s.db.movements| {
        DeleteKeeps(s, i);
      }
    case ReadRest(today) => ReadKeeps(s, today);
    case CommitStage => CommitKeeps(s);
    case _ =>
  }

  // ---- whole histories ----

  ghost predicate TimelyRun(s: State, steps: seq<Step>) {
    forall n :: 0 <= n < |steps| ==> Timely(Exec(s, steps[..n]), steps[n])
  }

  /** Empty fact table, nothing processed, any movements. */
  ghost predicate Fresh(s: State) {
    && s.phase.Idle? && s.db.facts == map[] && s.db.skus == {} && s.db.names == {}
    && s.db.watermark == 0 && s.db.stale == {}
    && forall m :: m in s.db.movements ==> 0 <= m.product < |s.db.products|
  }

  lemma {:induction false} HistoryKeeps(s: State, steps: seq<Step>)
    requires Fresh(s) && TimelyRun(s, steps)
    ensures Valid(Exec(s, steps))
  {
    if steps == [] {
      forall d | !Owed(s.db, 0, d) ensures DayGood(s.db, d) {
        forall m | m in s.db.movements ensures m.day != d {
          var i :| 0 <= i < |s.db.movements| && s.db.movements[i] == m;
        }
        EmptyDay(s.db, d);
      }
    } else {
      var n := |steps| - 1;
      forall k | 0 <= k < n ensures Timely(Exec(s, steps[..n][..k]), steps[..n][k]) {
        assert steps[..n][..k] == steps[..k];
      }
      HistoryKeeps(s, steps[..n]);
      assert Timely(Exec(s, steps[..n]), steps[n]);
      StepKeeps(Exec(s, steps[..n]), steps[n]);
    }
  }

  /** Every fact row equals a from-scratch aggregation of all movements. */
  ghost predicate AllGood(db: Db) {
    forall key: Key :: Matches(db.facts, key, db.movements, Meant(db.products, key))
  }

  /** After any history of arrivals in any id order, new products, soft deletes, runs and crashes at any stage
      boundary, a run that commits its last stage, incremental or full, leaves every day right but those owed to
      movements above the ids it counted, and those of later soft deletes and late commits; with none of these,
      the whole table is right. */
  lemma FinishedRunIsRight(s: State, steps: seq<Step>)
    requires Fresh(s) && TimelyRun(s, steps)
    requires Exec(s, steps).phase.At? && Exec(s, steps).phase.stage == 3
    ensures var maxId := Exec(s, steps).phase.range.maxId;
            var end := Next(Exec(s, steps), CommitStage);
            && end.phase.Idle? && end.db.watermark == maxId
            && GoodExceptOwed(end.db, maxId)
            && (|end.db.movements| == maxId && end.db.stale == {} ==> AllGood(end.db))
  {
    HistoryKeeps(s, steps);
    LastCommit(Exec(s, steps));
  }

  lemma LastCommit(s: State)
    requires Valid(s) && s.phase.At? && s.phase.stage == 3
    ensures var end := Next(s, CommitStage);
            && end.phase.Idle? && end.db.watermark == s.phase.range.maxId
            && GoodExceptOwed(end.db, s.phase.range.maxId)
            && (|end.db.movements| == s.phase.range.maxId && end.db.stale == {} ==> AllGood(end.db))
  {
    CommitKeeps(s);
    GoodEverywhere(Next(s, CommitStage).db);
  }

  lemma GoodEverywhere(db: Db)
    requires Base(db)
    ensures |db.movements| <= db.watermark && db.stale == {} ==> AllGood(db)
  {
    if |db.movements| <= db.watermark && db.stale == {} {
      forall key: Key ensures Matches(db.facts, key, db.movements, Meant(db.products, key)) {
        assert !Owed(db, db.watermark, key.day) && DayGood(db, key.day);
      }
    }
  }

  /** A run that skips owes nothing: it skips only when the table is right up to soft deletes and late commits. */
  lemma SkippedRunIsRight(s: State, steps: seq<Step>, today: int)
    requires Fresh(s) && TimelyRun(s, steps) && Exec(s, steps).phase.Idle?
    requires Exec(s, steps).db.facts != map[] && Next(Exec(s, steps), Start(false, today)).phase.Idle?
    ensures Exec(s, steps).db.stale == {} ==> AllGood(Exec(s, steps).db)
  {
    HistoryKeeps(s, steps);
    SkipOwesNothing(Exec(s, steps), today);
  }

  lemma SkipOwesNothing(s: State, today: int)
    requires Valid(s) && s.phase.Idle? && s.db.facts != map[] && Next(s, Start(false, today)).phase.Idle?
    ensures s.db.stale == {} ==> AllGood(s.db)
  {
    GoodEverywhere(s.db);
  }

  // ---- what a late commit leaves wrong ----

  lemma SumInsert(movements: seq<Movement>, at: int, x: Movement, weight: Movement -> int)
    requires 0 <= at <= |movements|
    ensures Sum(Inserted(movements, at, x), weight) == Sum(movements, weight) + weight(x)
  {
    var a, b := movements[..at], movements[at..];
    assert movements == a + b;
    SumConcat(a, b, weight);
    SumAppend(a, x, weight);
    SumConcat(a + [x], b, weight);
  }

  lemma GroupGrows(movements: seq<Movement>, at: int, x: Movement, keep: Movement -> bool)
    requires 0 <= at <= |movements| && keep(x)
    ensures x in Inserted(movements, at, x)
    ensures Totals(Inserted(movements, at, x), keep) == Totals(movements, keep) <==>
            x.quantity == 0 || (x.mtype != IN && x.mtype != OUT)
  {
    assert Inserted(movements, at, x)[at] == x;
    SumInsert(movements, at, x, Incoming(keep));
    SumInsert(movements, at, x, Outgoing(keep));
    SumInsert(movements, at, x, NetOf(keep));
  }

  /** A counting movement that commits late leaves its day wrong, unless its group has a row and it adds nothing
      to it, which a row of quantity zero, a RETURN or an ADJUSTMENT does not. */
  lemma LateExactly(db: Db, at: int, x: Movement)
    requires 0 <= at <= |db.movements| && Counts(db.products, x) && DayGood(db, x.day)
    ensures var key := Key(x.day, db.products[x.product].warehouse.value, db.products[x.product].sku);
            DayGood(db.(movements := Inserted(db.movements, at, x)), x.day) <==>
            key in db.facts && (x.quantity == 0 || (x.mtype != IN && x.mtype != OUT))
  {
    var after := Inserted(db.movements, at, x);
    var mine := Key(x.day, db.products[x.product].warehouse.value, db.products[x.product].sku);
    GroupGrows(db.movements, at, x, Meant(db.products, mine));
    assert Matches(db.facts, mine, db.movements, Meant(db.products, mine));
    forall key: Key | key.day == x.day && key != mine ensures Matches(db.facts, key, after, Meant(db.products, key)) {
      assert Matches(db.facts, key, db.movements, Meant(db.products, key));
      TotalsInsert(db.movements, at, x, Meant(db.products, key));
    }
    if DayGood(db.(movements := after), x.day) {
      assert Matches(db.facts, mine, after, Meant(db.products, mine));
    }
  }

  /** An incremental run leaves the days outside its range as they were, right or wrong. */
  lemma OutsideUntouched(db: Db, range: Range, stage: int, d: int)
    requires range.Incremental? && !(range.first <= d <= range.last)
    ensures DayGood(Stage(db, range, stage), d) <==> DayGood(db, d)
  {
    var db' := Stage(db, range, stage);
    forall key: Key | key.day == d
      ensures Matches(db'.facts, key, db'.movements, Meant(db'.products, key)) <==>
              Matches(db.facts, key, db.movements, Meant(db.products, key))
    {
      RebuildKey(db, range.first, range.last, key);
    }
    if DayGood(db, d) {
      forall key: Key | key.day == d ensures Matches(db'.facts, key, db'.movements, Meant(db'.products, key)) {
        assert Matches(db.facts, key, db.movements, Meant(db.products, key));
      }
    }
    if DayGood(db', d) {
      forall key: Key | key.day == d ensures Matches(db.facts, key, db.movements, Meant(db.products, key)) {
        assert Matches(db'.facts, key, db'.movements, Meant(db'.products, key));
      }
    }
  }

  /** With nothing newer than the watermark the next run does not even look: it skips. */
  lemma LateIsSkipped(s: State, at: int, x: Movement, today: int)
    requires s.phase.Idle? && s.db.facts != map[] && |s.db.movements| <= s.db.watermark && 0 <= at < s.db.watermark
    ensures var late := Next(s, Arrive(at, x.product, x.day, x.mtype, x.quantity));
            Next(late, Start(false, today)) == late
  {
  }

  // ---- when a full rebuild is right ----

  /** A full rebuild with nothing between its statements. */
  function Rebuilt(db: Db, today: int): Db {
    var range := Full(MinDay(db.movements, today - 90), today, |db.movements|);
    Stage(Stage(Stage(Stage(db, range, 0), range, 1), range, 2), range, 3)
  }

  lemma RebuiltIsARun(db: Db, today: int)
    ensures var steps := [Start(true, today), ReadRest(today), CommitStage, CommitStage, CommitStage, CommitStage];
            Exec(State(db, Idle), steps) == State(Rebuilt(db, today), Idle)
  {
    var steps := [Start(true, today), ReadRest(today), CommitStage, CommitStage, CommitStage, CommitStage];
    var s := State(db, Idle);
    var range := Full(MinDay(db.movements, today - 90), today, |db.movements|);
    ExecLast(s, steps, 0);
    ExecLast(s, steps, 1);
    assert Exec(s, steps[..0]) == s;
    assert Exec(s, steps[..2]) == State(db, At(range, 0));
    ExecLast(s, steps, 2);
    ExecLast(s, steps, 3);
    ExecLast(s, steps, 4);
    ExecLast(s, steps, 5);
    FourCommits(db, range);
    assert steps[..6] == steps;
  }

  lemma FourCommits(db: Db, range: Range)
    ensures Next(Next(Next(Next(State(db, At(range, 0)), CommitStage), CommitStage), CommitStage), CommitStage)
            == State(Stage(Stage(Stage(Stage(db, range, 0), range, 1), range, 2), range, 3), Idle)
  {
  }

  lemma ExecLast(s: State, steps: seq<Step>, n: nat)
    requires n < |steps|
    ensures Exec(s, steps[..n + 1]) == Next(Exec(s, steps[..n]), steps[n])
  {
    assert steps[..n + 1][..n] == steps[..n];
  }

  function WithDims(db: Db): Db {
    db.(skus := {} + NewSkus(db.products), names := {} + NewNames(db.products), facts := map[], watermark := 0)
  }

  /** A counting movement outside the range is missed. */
  lemma OutOfRangeLost(db: Db, first: int, last: int, m: Movement) returns (key: Key)
    requires m in db.movements && Counts(db.products, m) && m.day > last
    ensures !Matches(Rebuild(WithDims(db), first, last), key, db.movements, Meant(db.products, key))
  {
    key := Key(m.day, db.products[m.product].warehouse.value, db.products[m.product].sku);
    assert Meant(db.products, key)(m) && key !in Rebuild(WithDims(db), first, last);
  }

  lemma RebuiltFacts(db: Db, today: int)
    ensures var end := Rebuilt(db, today);
            && end.facts == Rebuild(WithDims(db), MinDay(db.movements, today - 90), today)
            && end.movements == db.movements && end.products == db.products
  {
  }

  lemma InRangeFound(db: Db, first: int, last: int, key: Key)
    requires forall m :: m in db.movements ==> 0 <= m.product < |db.products|
    requires forall m :: m in db.movements && Counts(db.products, m) ==> first <= m.day <= last
    ensures Matches(Rebuild(WithDims(db), first, last), key, db.movements, Meant(db.products, key))
  {
    var dims := WithDims(db);
    forall m | m in db.movements ensures Known(dims, m) {
      DimsKnow(db.(skus := {}, names := {}, facts := map[], watermark := 0), m);
    }
    forall name | name in dims.names ensures Clean(name) {
      var p :| p in db.products && p.warehouse.Some? && name == Trim(p.warehouse.value);
      TrimClean(p.warehouse.value);
    }
    assert first <= key.day <= last || DayGood(dims, key.day);
    RebuildDay(dims, first, last, key.day);
    assert DayGood(dims.(facts := Rebuild(dims, first, last)), key.day);
  }

  /** It reads MIN(day) but takes today as the last day, and then moves the watermark past everything: the
      table is right iff no movement that counts is dated after today. */
  lemma FullRebuildExact(db: Db, today: int)
    requires forall m :: m in db.movements ==> 0 <= m.product < |db.products|
    ensures AllGood(Rebuilt(db, today)) <==> forall m :: m in db.movements && Counts(db.products, m) ==> m.day <= today
  {
    var first := MinDay(db.movements, today - 90);
    MinMaxDays(db.movements, today - 90);
    RebuiltFacts(db, today);
    if m :| m in db.movements && Counts(db.products, m) && m.day > today {
      var key := OutOfRangeLost(db, first, today, m);
    } else {
      forall key: Key ensures Matches(Rebuilt(db, today).facts, key, db.movements, Meant(db.products, key)) {
        InRangeFound(db, first, today, key);
      }
    }
  }
}
