/** `run_etl` as it runs: loops over rows, stages that commit one by one, a crash between any two of them. */
module EtlRun {
  import opened Options
  import opened Sums
  import opened StockLedger
  import opened Etl
  import opened EtlConvergence

  function Plus(q: Qty, m: Movement): Qty {
    match m.mtype
    case IN => Qty(q.inQty + m.quantity, q.outQty, q.netQty + m.quantity)
    case OUT => Qty(q.inQty, q.outQty + m.quantity, q.netQty - m.quantity)
    case _ => q
  }

  lemma TotalsPlus(movements: seq<Movement>, x: Movement, keep: Movement -> bool)
    requires keep(x)
    ensures Totals(movements + [x], keep) == Plus(Totals(movements, keep), x)
  {
    SumAppend(movements, x, Incoming(keep));
    SumAppend(movements, x, Outgoing(keep));
    SumAppend(movements, x, NetOf(keep));
  }

  lemma TotalsNone(movements: seq<Movement>, keep: Movement -> bool)
    requires forall m :: m in movements ==> !keep(m)
    ensures Totals(movements, keep) == Qty(0, 0, 0)
  {
    SumZero(movements, Incoming(keep));
    SumZero(movements, Outgoing(keep));
    SumZero(movements, NetOf(keep));
  }

  function KeyOf(db: Db, m: Movement): Key
    requires Joins(db, m)
  {
    Key(m.day, db.products[m.product].warehouse.value, db.products[m.product].sku)
  }

  ghost predicate InGroup(db: Db, m: Movement, key: Key, first: int, last: int) {
    Joins(db, m) && first <= m.day <= last && KeyOf(db, m) == key
  }

  ghost predicate GroupOk(db: Db, groups: map<Key, Qty>, movements: seq<Movement>, first: int, last: int, key: Key) {
    && (key in groups <==> exists m :: m in movements && InGroup(db, m, key, first, last))
    && (key in groups ==> groups[key] == Totals(movements, Joined(db, key)))
  }

  /** `groups` is the GROUP BY of `movements` over the range. */
  ghost predicate Grouped(db: Db, groups: map<Key, Qty>, movements: seq<Movement>, first: int, last: int) {
    forall key :: GroupOk(db, groups, movements, first, last, key)
  }

  function GroupWith(db: Db, groups: map<Key, Qty>, x: Movement, first: int, last: int): map<Key, Qty> {
    if Joins(db, x) && first <= x.day <= last then
      var key := KeyOf(db, x);
      groups[key := Plus(if key in groups then groups[key] else Qty(0, 0, 0), x)]
    else groups
  }

  lemma GroupNextKey(db: Db, groups: map<Key, Qty>, movements: seq<Movement>, x: Movement, first: int, last: int, key: Key)
    requires GroupOk(db, groups, movements, first, last, key)
    ensures GroupOk(db, GroupWith(db, groups, x, first, last), movements + [x], first, last, key)
  {
    assert forall m :: m in movements + [x] <==> m in movements || m == x;
    if InGroup(db, x, key, first, last) {
      TotalsPlus(movements, x, Joined(db, key));
      if key !in groups {
        forall m | m in movements ensures !Joined(db, key)(m) {
          assert !InGroup(db, m, key, first, last);
        }
        TotalsNone(movements, Joined(db, key));
      }
    } else if key in groups {
      TotalsAppend(movements, x, Joined(db, key));
    }
  }

  lemma GroupNext(db: Db, groups: map<Key, Qty>, movements: seq<Movement>, x: Movement, first: int, last: int)
    requires Grouped(db, groups, movements, first, last)
    ensures Grouped(db, GroupWith(db, groups, x, first, last), movements + [x], first, last)
  {
    forall key ensures GroupOk(db, GroupWith(db, groups, x, first, last), movements + [x], first, last, key) {
      assert GroupOk(db, groups, movements, first, last, key);
      GroupNextKey(db, groups, movements, x, first, last, key);
    }
  }

  lemma GroupedKeys(db: Db, groups: map<Key, Qty>, first: int, last: int, key: Key)
    requires GroupOk(db, groups, db.movements, first, last, key)
    ensures key in groups <==> key in GroupKeys(db, first, last)
  {
  }

  lemma GroupedIsRebuild(db: Db, groups: map<Key, Qty>, first: int, last: int)
    requires Grouped(db, groups, db.movements, first, last)
    ensures (map key | key in db.facts && !(first <= key.day <= last) :: db.facts[key]) + groups == Rebuild(db, first, last)
  {
    forall key: Key
      ensures key in groups <==> key in GroupKeys(db, first, last)
      ensures key in groups ==> groups[key] == Totals(db.movements, Joined(db, key))
    {
      assert GroupOk(db, groups, db.movements, first, last, key);
      GroupedKeys(db, groups, first, last, key);
    }
    assert groups == map key | key in GroupKeys(db, first, last) :: Totals(db.movements, Joined(db, key));
  }

  class Warehouse {
    var products: seq<Product>
    var movements: seq<Movement>
    var skus: set<string>
    var names: set<string>
    var facts: map<Key, Qty>
    var watermark: int
    ghost var stale: set<int>

    ghost function View(): Db
      reads this
    {
      Db(products, movements, skus, names, facts, watermark, stale)
    }

    method BuildDims()
      modifies this`skus, this`names
      ensures View() == Stage(old(View()), Full(0, 0, 0), 1)
      ensures skus == old(skus) + (set p | p in products :: p.sku) && names == old(names) + NewNames(products)
    {
      ghost var before := View();
      var i := 0;
      while i < |products|
        invariant 0 <= i <= |products|
        invariant skus == before.skus + NewSkus(products[..i]) && names == before.names + NewNames(products[..i])
      {
        var p := products[i];
        assert products[..i + 1] == products[..i] + [p];
        skus := skus + {p.sku};
        if p.warehouse.Some? && Trim(p.warehouse.value) != "" {
          names := names + {Trim(p.warehouse.value)};
        }
        i := i + 1;
      }
      assert products[..i] == products;
    }

    method AddRow(groups: map<Key, Qty>, m: Movement, first: int, last: int) returns (groups': map<Key, Qty>)
      ensures groups' == GroupWith(View(), groups, m, first, last)
    {
      groups' := groups;
      if 0 <= m.product < |products| && !m.deleted && first <= m.day <= last {
        var p := products[m.product];
        if p.sku in skus && p.warehouse.Some? && p.warehouse.value in names {
          var key := Key(m.day, p.warehouse.value, p.sku);
          groups' := groups[key := Plus(if key in groups then groups[key] else Qty(0, 0, 0), m)];
        }
      }
    }

    /** The SELECT ... GROUP BY of a range of days. */
    method GroupRange(first: int, last: int) returns (groups: map<Key, Qty>)
      ensures Grouped(View(), groups, movements, first, last)
    {
      ghost var db := View();
      groups := map[];
      var i := 0;
      while i < |movements|
        invariant 0 <= i <= |movements|
        invariant Grouped(db, groups, movements[..i], first, last)
      {
        ghost var before := groups;
        groups := AddRow(groups, movements[i], first, last);
        GroupNext(db, before, movements[..i], movements[i], first, last);
        assert movements[..i + 1] == movements[..i] + [movements[i]];
        i := i + 1;
      }
      assert movements[..i] == movements;
    }

    method BuildMovementFacts(first: int, last: int)
      modifies this`facts, this`stale
      ensures facts == Rebuild(old(View()), first, last)
      ensures stale == StillStale(old(View()), first, last)
    {
      ghost var db := View();
      var groups := GroupRange(first, last);
      GroupedIsRebuild(View(), groups, first, last);
      facts := (map key | key in facts && !(first <= key.day <= last) :: facts[key]) + groups;
      stale := StillStale(db, first, last);
    }

    method DayBounds(from: int, default: int) returns (first: int, last: int)
      requires 0 <= from <= |movements|
      ensures first == MinDay(movements[from..], default) && last == MaxDay(movements[from..], default)
    {
      first, last := default, default;
      var i := from;
      while i < |movements|
        invariant from <= i <= |movements|
        invariant first == MinDay(movements[from..i], default) && last == MaxDay(movements[from..i], default)
      {
        assert movements[from..i + 1][..i - from] == movements[from..i];
        first := if i == from || movements[i].day < first then movements[i].day else first;
        last := Max(last, movements[i].day);
        i := i + 1;
      }
      assert movements[from..i] == movements[from..];
    }

    /** One committed block. */
    method RunStage(range: Range, stage: nat)
      requires stage < 4
      modifies this
      ensures View() == Stage(old(View()), range, stage)
      ensures products == old(products) && movements == old(movements)
      ensures stage == 3 ==> watermark == range.maxId
    {
      if stage == 0 {
        if range.Full? {
          skus, names, facts, watermark := {}, {}, map[], 0;
        }
      } else if stage == 1 {
        BuildDims();
      } else if stage == 2 {
        BuildMovementFacts(range.first, range.last);
      } else {
        watermark := range.maxId;
      }
    }

    method CommitStages(range: Range, stages: nat, ghost s0: State, ghost trace: seq<Step>) returns (ghost trace': seq<Step>)
      requires stages <= 4 && Exec(s0, trace) == State(View(), At(range, 0))
      modifies this
      ensures Exec(s0, trace') == State(View(), if stages == 4 then Idle else At(range, stages))
      ensures stages == 4 ==> watermark == range.maxId
      ensures trace <= trace' && products == old(products) && movements == old(movements)
    {
      trace' := trace;
      for n := 0 to stages
        invariant n == 4 ==> watermark == range.maxId
        invariant trace <= trace' && products == old(products) && movements == old(movements)
        invariant Exec(s0, trace') == State(View(), if n == 4 then Idle else At(range, n))
      {
        RunStage(range, n);
        assert (trace' + [CommitStage])[..|trace'|] == trace';
        trace' := trace' + [CommitStage];
      }
    }

    /** One run with nothing between its statements, dying after `stages` committed stages if fewer than four.
        It is a history of Etl, so everything proved of those holds of it. */
    method RunEtl(force: bool, today: int, stages: nat) returns (skipped: bool, ghost trace: seq<Step>)
      requires stages <= 4 && 0 <= watermark <= |movements|
      modifies this
      ensures Exec(State(old(View()), Idle), trace) == State(View(), Idle)
      ensures |trace| > 0 && trace[0] == Start(force, today)
      ensures skipped <==> old(facts) != map[] && !force && |old(movements)| <= old(watermark)
      ensures skipped ==> View() == old(View())
      ensures products == old(products) && movements == old(movements)
      ensures !skipped && stages == 4 ==> watermark == |movements|
    {
      ghost var s0 := State(View(), Idle);
      ghost var start := [Start(force, today)];
      assert start[..0] == [];
      assert Exec(s0, start) == Next(s0, Start(force, today));
      trace := start;
      if facts != map[] && !force && |movements| <= watermark {
        return true, trace;
      }
      skipped := false;
      var range: Range;
      if facts != map[] && !force {
        var first, last := DayBounds(watermark, today);
        range := Incremental(first, Max(last, today), |movements|);
      } else {
        var first, _ := DayBounds(0, today - 90);
        assert movements[0..] == movements;
        range := Full(first, today, |movements|);
      }
      assert (start + [ReadRest(today)])[..1] == start;
      trace := start + [ReadRest(today)];
      assert Exec(s0, trace) == Next(Exec(s0, start), ReadRest(today));
      trace := CommitStages(range, stages, s0, trace);
      if stages < 4 {
        assert (trace + [Crash])[..|trace|] == trace;
        trace := trace + [Crash];
      }
    }
  }
}
