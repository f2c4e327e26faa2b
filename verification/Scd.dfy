/** The type 2 dimension merges: a merge closes the current version of every source row that changed and
    opens a version for every source row left without one. */
module Scd {
  import opened Options

  type Key = string
  datatype Cell = Null | Text(text: string)
  type Row = seq<Cell>
  datatype SourceRow = SourceRow(key: Key, row: Row)
  datatype Version = Version(key: Key, row: Row, validFrom: int, validTo: Option<int>, isCurrent: bool)

  /** The two comparisons the WHERE clauses use; `!=` is not true when a side is NULL. */
  datatype Compare = NotEqual | IsDistinct
  datatype Rule = Always | Columns(compares: seq<Compare>)

  // The columns in the order in which the procedures compare them.
  const PRODUCTS := Columns([NotEqual, IsDistinct, IsDistinct, IsDistinct, NotEqual, NotEqual, IsDistinct])
  const SUPPLIERS := Columns([NotEqual, IsDistinct, IsDistinct, NotEqual, IsDistinct])
  const USERS := Columns([NotEqual, IsDistinct, NotEqual, NotEqual, IsDistinct])
  const WAREHOUSES := Always

  predicate Differs(compare: Compare, was: Cell, now: Cell) {
    match compare
    case NotEqual => was.Text? && now.Text? && was != now
    case IsDistinct => was != now
  }

  predicate Changed(rule: Rule, was: Row, now: Row) {
    rule.Always? ||
    exists i :: 0 <= i < |rule.compares| && i < |was| && i < |now| && Differs(rule.compares[i], was[i], now[i])
  }

  predicate Closes(rule: Rule, v: Version, source: seq<SourceRow>) {
    v.isCurrent && exists s :: s in source && s.key == v.key && Changed(rule, v.row, s.row)
  }

  function CloseOne(rule: Rule, v: Version, source: seq<SourceRow>, now: int): Version {
    if Closes(rule, v, source) then v.(validTo := Some(now), isCurrent := false) else v
  }

  /** The UPDATE. */
  function CloseAll(rule: Rule, table: seq<Version>, source: seq<SourceRow>, now: int): seq<Version> {
    if table == [] then []
    else CloseAll(rule, table[..|table| - 1], source, now) + [CloseOne(rule, table[|table| - 1], source, now)]
  }

  function ClosedCount(rule: Rule, table: seq<Version>, source: seq<SourceRow>): nat {
    if table == [] then 0
    else ClosedCount(rule, table[..|table| - 1], source) + if Closes(rule, table[|table| - 1], source) then 1 else 0
  }

  lemma CloseAppend(rule: Rule, table: seq<Version>, v: Version, source: seq<SourceRow>, now: int)
    ensures CloseAll(rule, table + [v], source, now) == CloseAll(rule, table, source, now) + [CloseOne(rule, v, source, now)]
    ensures ClosedCount(rule, table + [v], source) == ClosedCount(rule, table, source) + if Closes(rule, v, source) then 1 else 0
  {
  }

  /** The table with its first `i` rows updated. */
  ghost function HalfClosed(rule: Rule, table: seq<Version>, i: nat, source: seq<SourceRow>, now: int): seq<Version>
    requires i <= |table|
  {
    CloseAll(rule, table[..i], source, now) + table[i..]
  }

  lemma {:induction false} CloseLength(rule: Rule, table: seq<Version>, source: seq<SourceRow>, now: int)
    ensures |CloseAll(rule, table, source, now)| == |table|
  {
    if table != [] {
      CloseLength(rule, table[..|table| - 1], source, now);
    }
  }

  lemma CloseNext(rule: Rule, table: seq<Version>, i: nat, source: seq<SourceRow>, now: int)
    requires i < |table|
    ensures var half := HalfClosed(rule, table, i, source, now);
            |half| == |table| && half[i] == table[i]
            && HalfClosed(rule, table, i + 1, source, now) == half[i := CloseOne(rule, table[i], source, now)]
    ensures ClosedCount(rule, table[..i + 1], source) ==
            ClosedCount(rule, table[..i], source) + if Closes(rule, table[i], source) then 1 else 0
  {
    assert table[..i + 1] == table[..i] + [table[i]];
    CloseAppend(rule, table[..i], table[i], source, now);
    CloseLength(rule, table[..i], source, now);
    var done, row := CloseAll(rule, table[..i], source, now), CloseOne(rule, table[i], source, now);
    assert table[i..] == [table[i]] + table[i + 1..];
    assert (done + table[i..])[i := row] == done + [row] + table[i + 1..];
  }

  predicate HasCurrent(table: seq<Version>, key: Key) {
    exists v :: v in table && v.key == key && v.isCurrent
  }

  /** The rows of the INSERT ... SELECT, which reads `table` as the UPDATE left it. */
  function Opened(table: seq<Version>, source: seq<SourceRow>, now: int): seq<Version> {
    if source == [] then []
    else
      var s := source[|source| - 1];
      Opened(table, source[..|source| - 1], now)
      + (if HasCurrent(table, s.key) then [] else [Version(s.key, s.row, now, None, true)])
  }

  function Merged(rule: Rule, table: seq<Version>, source: seq<SourceRow>, now: int): seq<Version> {
    var closed := CloseAll(rule, table, source, now);
    closed + Opened(closed, source, now)
  }

  /** The dimension table. */
  class Dimension {
    var rows: seq<Version>

    constructor ()
      ensures rows == []
    {
      rows := [];
    }

    /** The first statement of a merge, with its row count. */
    method Close(rule: Rule, source: seq<SourceRow>, now: int) returns (count: nat)
      modifies this
      ensures rows == CloseAll(rule, old(rows), source, now)
      ensures count == ClosedCount(rule, old(rows), source)
    {
      count := 0;
      ghost var was := rows;
      for i := 0 to |rows|
        invariant |rows| == |was|
        invariant rows == HalfClosed(rule, was, i, source, now)
        invariant count == ClosedCount(rule, was[..i], source)
      {
        CloseNext(rule, was, i, source, now);
        if Closes(rule, rows[i], source) {
          rows := rows[i := rows[i].(validTo := Some(now), isCurrent := false)];
          count := count + 1;
        }
      }
      assert was[..|was|] == was;
    }

    /** The second statement. */
    method Open(source: seq<SourceRow>, now: int) returns (count: nat)
      modifies this
      ensures rows == old(rows) + Opened(old(rows), source, now)
      ensures count == |rows| - |old(rows)|
    {
      count := 0;
      var was := rows;
      var i := 0;
      while i < |source|
        invariant 0 <= i <= |source|
        invariant rows == was + Opened(was, source[..i], now)
        invariant count == |rows| - |was|
      {
        assert source[..i + 1][..i] == source[..i];
        if !HasCurrent(was, source[i].key) {
          rows := rows + [Version(source[i].key, source[i].row, now, None, true)];
          count := count + 1;
        }
        i := i + 1;
      }
      assert source[..|source|] == source;
    }

    method Merge(rule: Rule, source: seq<SourceRow>, now: int) returns (total: nat)
      modifies this
      ensures rows == Merged(rule, old(rows), source, now)
      ensures total == ClosedCount(rule, old(rows), source) + (|rows| - |CloseAll(rule, old(rows), source, now)|)
    {
      total := 0;
      var count := Close(rule, source, now);
      total := total + count;
      count := Open(source, now);
      total := total + count;
    }
  }
}

/** What a history of merges leaves: per key, versions that tile time and answer as-of queries. */
module ScdHistory {
  import opened Options
  import opened Scd

  datatype Load = Load(at: int, source: seq<SourceRow>)

  ghost predicate UniqueKeys(source: seq<SourceRow>) {
    forall i, j :: 0 <= i < j < |source| ==> source[i].key != source[j].key
  }

  ghost predicate Scheduled(loads: seq<Load>) {
    && (forall i :: 0 <= i < |loads| ==> UniqueKeys(loads[i].source))
    && (forall i, j :: 0 <= i < j < |loads| ==> loads[i].at < loads[j].at)
  }

  function Build(rule: Rule, loads: seq<Load>): seq<Version> {
    if loads == [] then []
    else
      var last := loads[|loads| - 1];
      Merged(rule, Build(rule, loads[..|loads| - 1]), last.source, last.at)
  }

  function Versions(table: seq<Version>, key: Key): seq<Version> {
    if table == [] then []
    else
      var v := table[|table| - 1];
      Versions(table[..|table| - 1], key) + (if v.key == key then [v] else [])
  }

  function RowFor(source: seq<SourceRow>, key: Key): Option<Row> {
    if source == [] then None
    else if source[|source| - 1].key == key then Some(source[|source| - 1].row)
    else RowFor(source[..|source| - 1], key)
  }

  /** One key's share of a merge. */
  function MergeKey(rule: Rule, vs: seq<Version>, key: Key, row: Option<Row>, now: int): seq<Version> {
    if row == None then vs
    else if vs == [] then [Version(key, row.value, now, None, true)]
    else
      var n := |vs| - 1;
      if Changed(rule, vs[n].row, row.value) then
        vs[..n] + [vs[n].(validTo := Some(now), isCurrent := false), Version(key, row.value, now, None, true)]
      else vs
  }

  /** The versions of a key in order: each closes when the next opens, and only the last is current. */
  ghost predicate Tiled(vs: seq<Version>, key: Key) {
    && (forall i :: 0 <= i < |vs| ==> vs[i].key == key)
    && (forall i :: 0 <= i < |vs| - 1 ==>
          !vs[i].isCurrent && vs[i].validTo == Some(vs[i + 1].validFrom) && vs[i].validFrom < vs[i + 1].validFrom)
    && (vs != [] ==> vs[|vs| - 1].isCurrent && vs[|vs| - 1].validTo == None)
  }

  lemma {:induction false} VersionsConcat(s: seq<Version>, t: seq<Version>, key: Key)
    ensures Versions(s + t, key) == Versions(s, key) + Versions(t, key)
    decreases |t|
  {
    if t == [] {
      assert s + t == s;
    } else {
      assert (s + t)[..|s + t| - 1] == s + t[..|t| - 1];
      VersionsConcat(s, t[..|t| - 1], key);
    }
  }

  lemma VersionsOne(v: Version, key: Key)
    ensures Versions([v], key) == if v.key == key then [v] else []
  {
  }

  lemma {:induction false} VersionsMember(table: seq<Version>, key: Key)
    ensures forall v :: v in Versions(table, key) <==> v in table && v.key == key
  {
    if table != [] {
      var n := |table| - 1;
      VersionsMember(table[..n], key);
      assert table == table[..n] + [table[n]];
    }
  }

  lemma {:induction false} RowForSpec(source: seq<SourceRow>, key: Key)
    ensures RowFor(source, key) == None <==> forall s :: s in source ==> s.key != key
    ensures RowFor(source, key) != None ==> SourceRow(key, RowFor(source, key).value) in source
  {
    if source != [] {
      var n := |source| - 1;
      RowForSpec(source[..n], key);
      assert source == source[..n] + [source[n]];
    }
  }

  lemma VersionsAppend(table: seq<Version>, v: Version, key: Key)
    ensures Versions(table + [v], key) == if v.key == key then Versions(table, key) + [v] else Versions(table, key)
  {
  }

  lemma {:induction false} ClosedVersions(rule: Rule, table: seq<Version>, source: seq<SourceRow>, now: int, key: Key)
    ensures Versions(CloseAll(rule, table, source, now), key) == CloseAll(rule, Versions(table, key), source, now)
  {
    if table != [] {
      var front, v := table[..|table| - 1], table[|table| - 1];
      assert table == front + [v];
      ClosedVersions(rule, front, source, now, key);
      CloseAppend(rule, front, v, source, now);
      CloseAppend(rule, Versions(front, key), v, source, now);
      VersionsAppend(front, v, key);
      VersionsAppend(CloseAll(rule, front, source, now), CloseOne(rule, v, source, now), key);
      assert CloseOne(rule, v, source, now).key == v.key;
    }
  }

  lemma {:induction false} CloseAllAt(rule: Rule, table: seq<Version>, source: seq<SourceRow>, now: int)
    ensures |CloseAll(rule, table, source, now)| == |table|
    ensures forall i :: 0 <= i < |table| ==> CloseAll(rule, table, source, now)[i] == CloseOne(rule, table[i], source, now)
  {
    if table != [] {
      CloseAllAt(rule, table[..|table| - 1], source, now);
    }
  }

  lemma {:induction false} OpenedVersions(table: seq<Version>, source: seq<SourceRow>, now: int, key: Key)
    requires UniqueKeys(source)
    ensures Versions(Opened(table, source, now), key) ==
            if RowFor(source, key) == None || HasCurrent(table, key) then []
            else [Version(key, RowFor(source, key).value, now, None, true)]
  {
    if source != [] {
      var n := |source| - 1;
      OpenedVersions(table, source[..n], now, key);
      var s := source[n];
      var more := if HasCurrent(table, s.key) then [] else [Version(s.key, s.row, now, None, true)];
      VersionsConcat(Opened(table, source[..n], now), more, key);
      if s.key == key {
        RowForSpec(source[..n], key);
        assert RowFor(source[..n], key) == None;
      }
      if more != [] {
        VersionsOne(more[0], key);
      }
    }
  }

  /** The whole-table merge is the one-key merge, key by key. */
  lemma MergeByKey(rule: Rule, table: seq<Version>, source: seq<SourceRow>, now: int, key: Key)
    requires UniqueKeys(source) && Tiled(Versions(table, key), key)
    ensures Versions(Merged(rule, table, source, now), key) ==
            MergeKey(rule, Versions(table, key), key, RowFor(source, key), now)
  {
    var vs := Versions(table, key);
    var closed := CloseAll(rule, table, source, now);
    VersionsConcat(closed, Opened(closed, source, now), key);
    ClosedVersions(rule, table, source, now, key);
    OpenedVersions(closed, source, now, key);
    VersionsMember(closed, key);
    var after := CloseAll(rule, vs, source, now);
    assert HasCurrent(closed, key) <==> exists v :: v in after && v.isCurrent;
    MergeVersions(rule, vs, source, now, key);
  }

  lemma ClosesOne(rule: Rule, v: Version, source: seq<SourceRow>)
    requires UniqueKeys(source) && v.isCurrent
    ensures Closes(rule, v, source) <==> RowFor(source, v.key) != None && Changed(rule, v.row, RowFor(source, v.key).value)
  {
  }

  /** Only the last of a key's versions can close. */
  lemma CloseLast(rule: Rule, vs: seq<Version>, source: seq<SourceRow>, now: int, key: Key)
    requires Tiled(vs, key) && vs != []
    ensures var n := |vs| - 1;
            CloseAll(rule, vs, source, now) == vs[..n] + [CloseOne(rule, vs[n], source, now)]
            && forall v :: v in vs[..n] ==> !v.isCurrent
  {
    CloseAllAt(rule, vs[..|vs| - 1], source, now);
    assert CloseAll(rule, vs[..|vs| - 1], source, now) == vs[..|vs| - 1];
  }

  /** `MergeByKey` on the versions of the key alone. */
  lemma MergeVersions(rule: Rule, vs: seq<Version>, source: seq<SourceRow>, now: int, key: Key)
    requires UniqueKeys(source) && Tiled(vs, key)
    ensures var after := CloseAll(rule, vs, source, now);
            MergeKey(rule, vs, key, RowFor(source, key), now) ==
            after + if RowFor(source, key) == None || (exists v :: v in after && v.isCurrent) then []
                    else [Version(key, RowFor(source, key).value, now, None, true)]
  {
    if vs != [] {
      var n := |vs| - 1;
      CloseLast(rule, vs, source, now, key);
      ClosesOne(rule, vs[n], source);
      var last := CloseOne(rule, vs[n], source, now);
      assert last in vs[..n] + [last];
      assert vs == vs[..n] + [vs[n]];
    }
  }

  lemma UniqueRow(source: seq<SourceRow>, s: SourceRow, key: Key)
    requires UniqueKeys(source) && s in source && s.key == key
    ensures RowFor(source, key) == Some(s.row)
  {
  }
}
