/** As-of queries over a merged dimension, and exactly when they are right. */
module ScdAsOf {
  import opened Options
  import opened Sums
  import opened Scd
  import opened ScdHistory

  /** The row a dimension records for a key: a merge replaces it only when the comparison sees a change. */
  function Recorded(rule: Rule, loads: seq<Load>, key: Key): Option<Row> {
    if loads == [] then None
    else
      var before := Recorded(rule, loads[..|loads| - 1], key);
      var now := RowFor(loads[|loads| - 1].source, key);
      if now == None then before
      else if before == None || Changed(rule, before.value, now.value) then now
      else before
  }

  /** The row of the latest merge whose source held the key. */
  function LatestRow(loads: seq<Load>, key: Key): Option<Row> {
    if loads == [] then None
    else if RowFor(loads[|loads| - 1].source, key) != None then RowFor(loads[|loads| - 1].source, key)
    else LatestRow(loads[..|loads| - 1], key)
  }

  /** The merges at or before `t`. */
  function Before(loads: seq<Load>, t: int): seq<Load> {
    if loads == [] || loads[|loads| - 1].at <= t then loads else Before(loads[..|loads| - 1], t)
  }

  predicate Covers(v: Version, t: int) {
    v.validFrom <= t && (v.validTo == None || t < v.validTo.value)
  }

  /** Every row an as-of lookup at `t` returns. */
  function Answers(table: seq<Version>, key: Key, t: int): seq<Row> {
    if table == [] then []
    else
      var v := table[|table| - 1];
      Answers(table[..|table| - 1], key, t) + if v.key == key && Covers(v, t) then [v.row] else []
  }

  function AsList(row: Option<Row>): seq<Row> {
    if row == None then [] else [row.value]
  }

  function CurrentCount(table: seq<Version>, key: Key): int {
    Sum(table, (v: Version) => if v.key == key && v.isCurrent then 1 else 0)
  }

  lemma AnswersAppend(table: seq<Version>, v: Version, key: Key, t: int)
    ensures Answers(table + [v], key, t) == Answers(table, key, t) + if v.key == key && Covers(v, t) then [v.row] else []
  {
  }

  lemma {:induction false} AnswersNone(table: seq<Version>, key: Key, t: int)
    requires forall i :: 0 <= i < |table| ==> !Covers(table[i], t)
    ensures Answers(table, key, t) == []
  {
    if table != [] {
      AnswersNone(table[..|table| - 1], key, t);
    }
  }

  lemma {:induction false} AnswersOfVersions(table: seq<Version>, key: Key, t: int)
    ensures Answers(table, key, t) == Answers(Versions(table, key), key, t)
    ensures CurrentCount(table, key) == CurrentCount(Versions(table, key), key)
  {
    if table != [] {
      var front, v := table[..|table| - 1], table[|table| - 1];
      assert table == front + [v];
      AnswersOfVersions(front, key, t);
      VersionsAppend(front, v, key);
      var weight := (v: Version) => if v.key == key && v.isCurrent then 1 else 0;
      SumAppend(front, v, weight);
      if v.key == key {
        AnswersAppend(Versions(front, key), v, key, t);
        SumAppend(Versions(front, key), v, weight);
      }
    }
  }

  /** From its start on, the last version alone answers. */
  lemma LastAnswers(vs: seq<Version>, key: Key, t: int)
    requires Tiled(vs, key) && vs != [] && vs[|vs| - 1].validFrom <= t
    ensures Answers(vs, key, t) == [vs[|vs| - 1].row]
  {
    var n := |vs| - 1;
    forall i | 0 <= i < n ensures !Covers(vs[..n][i], t) {
      StartsBeforeLast(vs, key, i + 1);
      assert vs[i].validTo == Some(vs[i + 1].validFrom);
    }
    AnswersNone(vs[..n], key, t);
  }

  lemma {:induction false} StartsBeforeLast(vs: seq<Version>, key: Key, i: nat)
    requires Tiled(vs, key) && i < |vs|
    ensures vs[i].validFrom <= vs[|vs| - 1].validFrom
    decreases |vs| - i
  {
    if i < |vs| - 1 {
      StartsBeforeLast(vs, key, i + 1);
    }
  }

  lemma EarlierAnswers(rule: Rule, vs: seq<Version>, key: Key, row: Option<Row>, now: int, t: int)
    requires Tiled(vs, key) && t < now
    ensures Answers(MergeKey(rule, vs, key, row, now), key, t) == Answers(vs, key, t)
  {
    if vs == [] && row != None {
      AnswersAppend(vs, Version(key, row.value, now, None, true), key, t);
    } else if row != None && Changed(rule, vs[|vs| - 1].row, row.value) {
      ReplaceAnswers(vs, key, row.value, now, t);
    }
  }

  lemma ReplaceAnswers(vs: seq<Version>, key: Key, row: Row, now: int, t: int)
    requires Tiled(vs, key) && vs != [] && t < now
    ensures var n := |vs| - 1;
            Answers(vs[..n] + [vs[n].(validTo := Some(now), isCurrent := false), Version(key, row, now, None, true)], key, t)
            == Answers(vs, key, t)
  {
    var front, last := vs[..|vs| - 1], vs[|vs| - 1];
    var closed, newest := last.(validTo := Some(now), isCurrent := false), Version(key, row, now, None, true);
    AnswersAppend(front, closed, key, t);
    AnswersAppend(front + [closed], newest, key, t);
    assert front + [closed, newest] == front + [closed] + [newest];
    AnswersAppend(front, last, key, t);
    assert vs == front + [last];
  }

  /** `vs` tiles time up to `at` and ends in the recorded row. */
  ghost predicate Records(vs: seq<Version>, key: Key, at: int, recorded: Option<Row>) {
    && Tiled(vs, key)
    && (forall i :: 0 <= i < |vs| ==> vs[i].validFrom <= at)
    && (vs == [] <==> recorded == None)
    && (vs != [] ==> vs[|vs| - 1].row == recorded.value)
  }

  lemma MergeRecords(rule: Rule, vs: seq<Version>, key: Key, at: int, recorded: Option<Row>, row: Option<Row>, now: int)
    requires Records(vs, key, at, recorded) && at < now
    ensures Records(MergeKey(rule, vs, key, row, now), key, now,
                    if row == None then recorded
                    else if recorded == None || Changed(rule, recorded.value, row.value) then row else recorded)
  {
  }

  function LastAt(loads: seq<Load>): int {
    if loads == [] then 0 else loads[|loads| - 1].at
  }

  /** In every history the versions of a key tile time from its first merge on, and the last is the recorded row. */
  lemma {:induction false} HistoryTiles(rule: Rule, loads: seq<Load>, key: Key)
    requires Scheduled(loads)
    ensures Records(Versions(Build(rule, loads), key), key, LastAt(loads), Recorded(rule, loads, key))
  {
    if loads != [] {
      var front, last := loads[..|loads| - 1], loads[|loads| - 1];
      HistoryTiles(rule, front, key);
      MergeByKey(rule, Build(rule, front), last.source, last.at, key);
      var at := if front == [] then last.at - 1 else LastAt(front);
      MergeRecords(rule, Versions(Build(rule, front), key), key, at, Recorded(rule, front, key), RowFor(last.source, key), last.at);
    }
  }

  lemma {:induction false} RecordedSeen(rule: Rule, loads: seq<Load>, key: Key)
    ensures Recorded(rule, loads, key) == None <==> forall i :: 0 <= i < |loads| ==> RowFor(loads[i].source, key) == None
  {
    if loads != [] {
      RecordedSeen(rule, loads[..|loads| - 1], key);
    }
  }

  lemma {:induction false} OneCurrent(vs: seq<Version>, key: Key)
    requires forall i :: 0 <= i < |vs| - 1 ==> !vs[i].isCurrent
    ensures CurrentCount(vs, key) == if vs != [] && vs[|vs| - 1].key == key && vs[|vs| - 1].isCurrent then 1 else 0
  {
    if vs != [] {
      OneCurrent(vs[..|vs| - 1], key);
    }
  }

  /** A key has exactly one current version once some merge has seen it, and none before. */
  lemma ExactlyOneCurrent(rule: Rule, loads: seq<Load>, key: Key)
    requires Scheduled(loads)
    ensures CurrentCount(Build(rule, loads), key) ==
            if exists i :: 0 <= i < |loads| && RowFor(loads[i].source, key) != None then 1 else 0
  {
    HistoryTiles(rule, loads, key);
    RecordedSeen(rule, loads, key);
    AnswersOfVersions(Build(rule, loads), key, 0);
    OneCurrent(Versions(Build(rule, loads), key), key);
  }

  lemma AnswersNow(rule: Rule, loads: seq<Load>, key: Key, t: int)
    requires Scheduled(loads) && (loads != [] ==> LastAt(loads) <= t)
    ensures Answers(Build(rule, loads), key, t) == AsList(Recorded(rule, loads, key))
  {
    HistoryTiles(rule, loads, key);
    AnswersOfVersions(Build(rule, loads), key, t);
    var vs := Versions(Build(rule, loads), key);
    if vs != [] {
      LastAnswers(vs, key, t);
    }
  }

  lemma AnswersBefore(rule: Rule, loads: seq<Load>, key: Key, t: int)
    requires Scheduled(loads) && loads != [] && t < LastAt(loads)
    ensures Answers(Build(rule, loads), key, t) == Answers(Build(rule, loads[..|loads| - 1]), key, t)
  {
    var front, last := loads[..|loads| - 1], loads[|loads| - 1];
    HistoryTiles(rule, front, key);
    MergeByKey(rule, Build(rule, front), last.source, last.at, key);
    EarlierAnswers(rule, Versions(Build(rule, front), key), key, RowFor(last.source, key), last.at, t);
    AnswersOfVersions(Build(rule, front), key, t);
    AnswersOfVersions(Build(rule, loads), key, t);
  }

  /** As-of lookups return the recorded row, at every time: exactly one row, or none before the key was seen. */
  lemma {:induction false} AsOfIsRecorded(rule: Rule, loads: seq<Load>, key: Key, t: int)
    requires Scheduled(loads)
    ensures Answers(Build(rule, loads), key, t) == AsList(Recorded(rule, Before(loads, t), key))
  {
    if loads == [] || LastAt(loads) <= t {
      AnswersNow(rule, loads, key, t);
    } else {
      AnswersBefore(rule, loads, key, t);
      AsOfIsRecorded(rule, loads[..|loads| - 1], key, t);
    }
  }

  /** No merge of the history meets a changed source row that its comparison takes for unchanged. */
  ghost predicate EveryChangeSeen(rule: Rule, loads: seq<Load>, key: Key) {
    forall i :: 0 <= i < |loads| ==> ChangeSeen(rule, loads, i, key)
  }

  ghost predicate ChangeSeen(rule: Rule, loads: seq<Load>, i: nat, key: Key)
    requires i < |loads|
  {
    var was, now := LatestRow(loads[..i], key), RowFor(loads[i].source, key);
    was == None || now == None || was == now || Changed(rule, was.value, now.value)
  }

  lemma {:induction false} SeenIsRecorded(rule: Rule, loads: seq<Load>, key: Key)
    requires EveryChangeSeen(rule, loads, key)
    ensures Recorded(rule, loads, key) == LatestRow(loads, key)
  {
    if loads != [] {
      var front := loads[..|loads| - 1];
      assert ChangeSeen(rule, loads, |front|, key);
      forall i | 0 <= i < |front| ensures ChangeSeen(rule, front, i, key) {
        assert front[..i] == loads[..i];
        assert ChangeSeen(rule, loads, i, key);
      }
      SeenIsRecorded(rule, front, key);
    }
  }

  lemma {:induction false} BeforeIsPrefix(loads: seq<Load>, t: int)
    ensures Before(loads, t) <= loads
    ensures forall i :: |Before(loads, t)| <= i < |loads| ==> t < loads[i].at
  {
    if loads != [] {
      BeforeIsPrefix(loads[..|loads| - 1], t);
    }
  }

  lemma BeforeAt(loads: seq<Load>, i: nat)
    requires Scheduled(loads) && i < |loads|
    ensures Before(loads, loads[i].at) == loads[..i + 1]
  {
    var t := loads[i].at;
    BeforeIsPrefix(loads, t);
    var b := Before(loads, t);
    BeforeEnds(loads, t);
    assert b == loads[..|b|];
  }

  lemma {:induction false} BeforeEnds(loads: seq<Load>, t: int)
    ensures Before(loads, t) != [] ==> Before(loads, t)[|Before(loads, t)| - 1].at <= t
  {
    if loads != [] {
      BeforeEnds(loads[..|loads| - 1], t);
    }
  }

  ghost predicate AnswersRight(rule: Rule, loads: seq<Load>, key: Key, t: int) {
    Answers(Build(rule, loads), key, t) == AsList(LatestRow(Before(loads, t), key))
  }

  /** As-of lookups return the source row of the latest merge at or before their time, at all times,
      exactly when no merge misses a change. */
  lemma AsOfExact(rule: Rule, loads: seq<Load>, key: Key)
    requires Scheduled(loads)
    ensures (forall t :: AnswersRight(rule, loads, key, t)) <==> EveryChangeSeen(rule, loads, key)
  {
    if EveryChangeSeen(rule, loads, key) {
      forall t ensures AnswersRight(rule, loads, key, t) {
        AsOfIsRecorded(rule, loads, key, t);
        BeforeIsPrefix(loads, t);
        var b := Before(loads, t);
        forall i | 0 <= i < |b| ensures ChangeSeen(rule, b, i, key) {
          assert b[..i] == loads[..i];
          assert ChangeSeen(rule, loads, i, key);
        }
        SeenIsRecorded(rule, b, key);
      }
    }
    if forall t :: AnswersRight(rule, loads, key, t) {
      forall i | 0 <= i < |loads| ensures ChangeSeen(rule, loads, i, key) {
        RightMeansSeen(rule, loads, i, key);
      }
    }
  }

  lemma RightAt(rule: Rule, loads: seq<Load>, i: nat, key: Key)
    requires Scheduled(loads) && i < |loads| && AnswersRight(rule, loads, key, loads[i].at)
    ensures Recorded(rule, loads[..i + 1], key) == LatestRow(loads[..i + 1], key)
  {
    var t := loads[i].at;
    BeforeAt(loads, i);
    AsOfIsRecorded(rule, loads, key, t);
    var r, l := Recorded(rule, loads[..i + 1], key), LatestRow(loads[..i + 1], key);
    assert AsList(r) == AsList(l);
    if r != None && l != None {
      assert AsList(r)[0] == AsList(l)[0];
    }
  }

  lemma RightMeansSeen(rule: Rule, loads: seq<Load>, i: nat, key: Key)
    requires Scheduled(loads) && i < |loads| && forall t :: AnswersRight(rule, loads, key, t)
    ensures ChangeSeen(rule, loads, i, key)
  {
    assert AnswersRight(rule, loads, key, loads[i].at);
    RightAt(rule, loads, i, key);
    assert loads[..i + 1][..i] == loads[..i];
    if i > 0 {
      assert AnswersRight(rule, loads, key, loads[i - 1].at);
      RightAt(rule, loads, i - 1, key);
    }
  }

  /** A source row as the table definitions constrain it: the columns compared with `!=` hold no NULL. */
  predicate WellFormed(rule: Rule, row: Row) {
    rule.Always? ||
    (|row| == |rule.compares| && forall i :: 0 <= i < |row| && rule.compares[i] == NotEqual ==> row[i].Text?)
  }

  /** Which columns that asks to be NOT NULL, dimension by dimension. */
  lemma ConstrainedColumns(row: Row)
    ensures WellFormed(PRODUCTS, row) <==> |row| == 7 && row[0].Text? && row[4].Text? && row[5].Text?
    ensures WellFormed(USERS, row) <==> |row| == 5 && row[0].Text? && row[2].Text? && row[3].Text?
    ensures WellFormed(SUPPLIERS, row) <==> |row| == 5 && row[0].Text? && row[3].Text?
    ensures WellFormed(WAREHOUSES, row)
  {
    var p, u, s := PRODUCTS.compares, USERS.compares, SUPPLIERS.compares;
    assert p[0] == p[4] == p[5] == u[0] == u[2] == u[3] == s[0] == s[3] == NotEqual;
  }

  lemma {:induction false} LatestFrom(loads: seq<Load>, key: Key)
    ensures LatestRow(loads, key) != None ==>
              exists i :: 0 <= i < |loads| && SourceRow(key, LatestRow(loads, key).value) in loads[i].source
  {
    if loads != [] {
      RowForSpec(loads[|loads| - 1].source, key);
      LatestFrom(loads[..|loads| - 1], key);
    }
  }

  /** So products, users and warehouses, whose `!=` columns are NOT NULL, answer every as-of query. */
  lemma AsOfCorrect(rule: Rule, loads: seq<Load>, key: Key, t: int)
    requires Scheduled(loads)
    requires forall i, s :: 0 <= i < |loads| && s in loads[i].source ==> WellFormed(rule, s.row)
    ensures AnswersRight(rule, loads, key, t)
  {
    forall i | 0 <= i < |loads| ensures ChangeSeen(rule, loads, i, key) {
      var was, now := LatestRow(loads[..i], key), RowFor(loads[i].source, key);
      RowForSpec(loads[i].source, key);
      LatestFrom(loads[..i], key);
      if was != None && now != None && was != now && rule.Columns? {
        assert WellFormed(rule, was.value) && WellFormed(rule, now.value);
        assert (forall c :: 0 <= c < |was.value| ==> was.value[c] == now.value[c]) ==> was.value == now.value;
        var c :| 0 <= c < |was.value| && was.value[c] != now.value[c];
        assert Differs(rule.compares[c], was.value[c], now.value[c]);
      }
    }
    AsOfExact(rule, loads, key);
  }

  /** Suppliers: `lead_days` may be NULL and is compared with `!=`, so a merge misses exactly the changes
      that only move `lead_days` to or from NULL. */
  lemma SupplierMisses(was: Row, now: Row)
    requires |was| == |now| == 5 && was[0].Text? && now[0].Text?
    ensures was != now && !Changed(SUPPLIERS, was, now) <==>
            was[..3] == now[..3] && was[4] == now[4] && was[3] != now[3] && (was[3].Null? || now[3].Null?)
  {
  }

  /** A supplier whose `lead_days` is cleared between two merges keeps answering with the old value. */
  lemma ClearedLeadDaysIsMissed(name: string, days: string)
    ensures var was := [Text(name), Null, Null, Text(days), Null];
            var now := [Text(name), Null, Null, Null, Null];
            var loads := [Load(1, [SourceRow("s", was)]), Load(2, [SourceRow("s", now)])];
            Scheduled(loads) && !(forall t :: AnswersRight(SUPPLIERS, loads, "s", t))
  {
    var was := [Text(name), Null, Null, Text(days), Null];
    var now := [Text(name), Null, Null, Null, Null];
    var loads := [Load(1, [SourceRow("s", was)]), Load(2, [SourceRow("s", now)])];
    SupplierMisses(was, now);
    assert loads[..1] == [loads[0]];
    assert RowFor(loads[1].source, "s") == Some(now);
    assert LatestRow([loads[0]], "s") == RowFor(loads[0].source, "s") == Some(was);
    assert was[..3] == now[..3] && was[3] != now[3];
    assert !ChangeSeen(SUPPLIERS, loads, 1, "s");
    AsOfExact(SUPPLIERS, loads, "s");
  }

  lemma {:induction false} OpenedNone(table: seq<Version>, source: seq<SourceRow>, now: int)
    ensures Opened(table, source, now) == [] <==> forall s :: s in source ==> HasCurrent(table, s.key)
  {
    if source != [] {
      var n := |source| - 1;
      OpenedNone(table, source[..n], now);
      assert source == source[..n] + [source[n]];
    }
  }

  /** A merge changes nothing exactly when every source row has a current version and none of those differs. */
  lemma NoOpExactly(rule: Rule, table: seq<Version>, source: seq<SourceRow>, now: int)
    ensures Merged(rule, table, source, now) == table <==>
            (forall s :: s in source ==> HasCurrent(table, s.key)) && (forall v :: v in table ==> !Closes(rule, v, source))
  {
    var closed := CloseAll(rule, table, source, now);
    CloseAllAt(rule, table, source, now);
    OpenedNone(closed, source, now);
    if Merged(rule, table, source, now) == table {
      assert closed == table;
      forall v | v in table ensures !Closes(rule, v, source) {
        var i :| 0 <= i < |table| && table[i] == v;
        assert closed[i] == table[i];
      }
    }
    if forall v :: v in table ==> !Closes(rule, v, source) {
      assert forall i :: 0 <= i < |table| ==> table[i] in table;
      assert closed == table;
    }
  }

  lemma {:induction false} JustMerged(rule: Rule, loads: seq<Load>, v: Version)
    requires Scheduled(loads) && loads != [] && rule.Columns?
    requires v in Build(rule, loads) && v.isCurrent
    ensures !Closes(rule, v, loads[|loads| - 1].source)
  {
    HistoryTiles(rule, loads, v.key);
    VersionsMember(Build(rule, loads), v.key);
    forall s | s in loads[|loads| - 1].source && s.key == v.key
      ensures RowFor(loads[|loads| - 1].source, v.key) == Some(s.row)
    {
      UniqueRow(loads[|loads| - 1].source, s, v.key);
    }
  }

  /** Merging the same source twice is merging it once, for every dimension but warehouses. */
  lemma {:induction false} MergeTwice(rule: Rule, loads: seq<Load>, again: int)
    requires Scheduled(loads) && loads != [] && rule.Columns?
    ensures Merged(rule, Build(rule, loads), loads[|loads| - 1].source, again) == Build(rule, loads)
  {
    var source := loads[|loads| - 1].source;
    var table := Build(rule, loads);
    forall s | s in source ensures HasCurrent(table, s.key) {
      HistoryTiles(rule, loads, s.key);
      RowForSpec(source, s.key);
      var vs := Versions(table, s.key);
      VersionsMember(table, s.key);
      assert vs[|vs| - 1] in vs;
    }
    forall v | v in table && v.isCurrent ensures !Closes(rule, v, source) {
      JustMerged(rule, loads, v);
    }
    NoOpExactly(rule, table, source, again);
  }

  lemma {:induction false} OpenedAll(table: seq<Version>, source: seq<SourceRow>, now: int)
    requires forall s :: s in source ==> !HasCurrent(table, s.key)
    ensures |Opened(table, source, now)| == |source|
  {
    if source != [] {
      OpenedAll(table, source[..|source| - 1], now);
    }
  }

  /** A warehouse merge always closes and reopens: it adds one version per source row, changed or not. */
  lemma WarehousesAlwaysGrow(table: seq<Version>, source: seq<SourceRow>, now: int)
    ensures |Merged(WAREHOUSES, table, source, now)| == |table| + |source|
  {
    var closed := CloseAll(WAREHOUSES, table, source, now);
    CloseAllAt(WAREHOUSES, table, source, now);
    forall s | s in source ensures !HasCurrent(closed, s.key) {
      forall v | v in closed && v.key == s.key ensures !v.isCurrent {
        var i :| 0 <= i < |closed| && closed[i] == v;
        assert v == CloseOne(WAREHOUSES, table[i], source, now);
      }
    }
    OpenedAll(closed, source, now);
  }

  function CurrentVersions(table: seq<Version>): int {
    Sum(table, (v: Version) => if v.isCurrent then 1 else 0)
  }

  /** The row count of the UPDATE is the number of current versions that are current no longer. */
  lemma {:induction false} ClosedCountExactly(rule: Rule, table: seq<Version>, source: seq<SourceRow>, now: int)
    ensures ClosedCount(rule, table, source) == CurrentVersions(table) - CurrentVersions(CloseAll(rule, table, source, now))
  {
    if table != [] {
      var n := |table| - 1;
      var weight := (v: Version) => if v.isCurrent then 1 else 0;
      ClosedCountExactly(rule, table[..n], source, now);
      SumAppend(CloseAll(rule, table[..n], source, now), CloseOne(rule, table[n], source, now), weight);
      SumAppend(table[..n], table[n], weight);
      assert table == table[..n] + [table[n]];
    }
  }

  ghost predicate AtMostOneCurrent(table: seq<Version>) {
    forall key :: CurrentCount(table, key) <= 1
  }

  function RowCount(source: seq<SourceRow>, key: Key): int {
    Sum(source, (s: SourceRow) => if s.key == key then 1 else 0)
  }

  ghost predicate Occurs(source: seq<SourceRow>, key: Key) {
    exists i :: 0 <= i < |source| && source[i].key == key
  }

  ghost predicate OccursTwice(source: seq<SourceRow>, key: Key) {
    exists i, j :: 0 <= i < j < |source| && source[i].key == key && source[j].key == key
  }

  /** The key has a current version that the merge does not close. */
  predicate Stays(rule: Rule, table: seq<Version>, source: seq<SourceRow>, key: Key) {
    exists v :: v in table && v.key == key && v.isCurrent && !Closes(rule, v, source)
  }

  lemma StaysCurrent(rule: Rule, table: seq<Version>, source: seq<SourceRow>, now: int, key: Key)
    ensures HasCurrent(CloseAll(rule, table, source, now), key) <==> Stays(rule, table, source, key)
  {
    var closed := CloseAll(rule, table, source, now);
    CloseAllAt(rule, table, source, now);
    if HasCurrent(closed, key) {
      var i :| 0 <= i < |closed| && closed[i].key == key && closed[i].isCurrent;
      assert closed[i] == CloseOne(rule, table[i], source, now);
      assert table[i] in table;
    }
    if Stays(rule, table, source, key) {
      var i :| 0 <= i < |table| && table[i].key == key && table[i].isCurrent && !Closes(rule, table[i], source);
      assert closed[i] == table[i] && closed[i] in closed;
    }
  }

  lemma {:induction false} RowsCounted(source: seq<SourceRow>, key: Key)
    ensures RowCount(source, key) >= 0
    ensures RowCount(source, key) >= 1 <==> Occurs(source, key)
    ensures RowCount(source, key) >= 2 <==> OccursTwice(source, key)
  {
    if source != [] {
      var n := |source| - 1;
      var front := source[..n];
      RowsCounted(front, key);
      assert forall i :: 0 <= i < n ==> front[i] == source[i];
      if Occurs(front, key) {
        var i :| 0 <= i < n && front[i].key == key;
        assert source[i].key == key;
        assert source[n].key == key ==> OccursTwice(source, key);
      }
      if OccursTwice(source, key) {
        var i, j :| 0 <= i < j < |source| && source[i].key == key && source[j].key == key;
        assert front[i].key == key;
        assert j < n ==> front[j].key == key;
      }
    }
  }

  lemma {:induction false} OpenedCount(table: seq<Version>, source: seq<SourceRow>, now: int, key: Key)
    ensures CurrentCount(Opened(table, source, now), key) == if HasCurrent(table, key) then 0 else RowCount(source, key)
  {
    if source != [] {
      var n := |source| - 1;
      OpenedCount(table, source[..n], now, key);
      var front := Opened(table, source[..n], now);
      assert front + [] == front;
      if !HasCurrent(table, source[n].key) {
        CountAppend(front, Version(source[n].key, source[n].row, now, None, true), key);
      }
    }
  }

  lemma CountAppend(table: seq<Version>, v: Version, key: Key)
    ensures CurrentCount(table + [v], key) == CurrentCount(table, key) + if v.key == key && v.isCurrent then 1 else 0
  {
  }

  lemma {:induction false} CloseCount(rule: Rule, table: seq<Version>, source: seq<SourceRow>, now: int, key: Key)
    ensures CurrentCount(CloseAll(rule, table, source, now), key) <= CurrentCount(table, key)
  {
    if table != [] {
      var n := |table| - 1;
      CloseCount(rule, table[..n], source, now, key);
      assert table == table[..n] + [table[n]];
      CountAppend(table[..n], table[n], key);
      CountAppend(CloseAll(rule, table[..n], source, now), CloseOne(rule, table[n], source, now), key);
    }
  }

  /** How many current versions of a key a merge leaves, on any source. */
  lemma MergedCount(rule: Rule, table: seq<Version>, source: seq<SourceRow>, now: int, key: Key)
    ensures var closed := CloseAll(rule, table, source, now);
            CurrentCount(Merged(rule, table, source, now), key) ==
            if Stays(rule, table, source, key) then CurrentCount(closed, key) else RowCount(source, key)
  {
    var closed := CloseAll(rule, table, source, now);
    var weight := (v: Version) => if v.key == key && v.isCurrent then 1 else 0;
    SumConcat(closed, Opened(closed, source, now), weight);
    OpenedCount(closed, source, now, key);
    StaysCurrent(rule, table, source, now, key);
    if !HasCurrent(closed, key) {
      SumZero(closed, weight);
    }
  }

  /** The merges read soft-deleted rows too, and a product's sku is unique only among live rows, so a source may
      hold a key twice. A merge leaves at most one current version per key if and only if each such key has a
      current version that the merge does not close. */
  lemma UniqueKeysExact(rule: Rule, table: seq<Version>, source: seq<SourceRow>, now: int)
    requires AtMostOneCurrent(table)
    ensures AtMostOneCurrent(Merged(rule, table, source, now)) <==>
            forall key :: OccursTwice(source, key) ==> Stays(rule, table, source, key)
  {
    var after := Merged(rule, table, source, now);
    forall key
      ensures CurrentCount(after, key) <= 1 <==> (OccursTwice(source, key) ==> Stays(rule, table, source, key))
    {
      assert CurrentCount(table, key) <= 1;
      MergedCount(rule, table, source, now, key);
      CloseCount(rule, table, source, now, key);
      RowsCounted(source, key);
    }
    if AtMostOneCurrent(after) {
      forall key | OccursTwice(source, key) ensures Stays(rule, table, source, key) {
        assert CurrentCount(after, key) <= 1;
      }
    }
  }

  /** A first merge: exactly when the keys of the source are unique. */
  lemma FirstMergeExact(rule: Rule, source: seq<SourceRow>, now: int)
    ensures AtMostOneCurrent(Merged(rule, [], source, now)) <==> UniqueKeys(source)
  {
    UniqueKeysExact(rule, [], source, now);
    if !UniqueKeys(source) {
      var i, j :| 0 <= i < j < |source| && source[i].key == source[j].key;
      assert OccursTwice(source, source[i].key);
    }
  }
}
