/** Histories of an audit log: triggered inserts, backfills and the retention purge, and when they leave it clean. */
module AuditHistory {
  import opened Options
  import opened AuditChain
  import opened AuditChainResults

  /** What happens to a log once the columns exist. A purge drops the oldest rows. */
  datatype Event<C> = Insert(id: int, content: C) | Backfill | Purge(count: nat)

  function Purged<C>(log: seq<Row<C>>, count: nat): seq<Row<C>> {
    if count < |log| then log[count..] else []
  }

  function Step<C>(log: seq<Row<C>>, e: Event<C>, hash: Digest<C>): seq<Row<C>> {
    match e
    case Insert(id, content) => Inserted(log, id, content, hash)
    case Backfill => Backfilled(log, hash)
    case Purge(count) => Purged(log, count)
  }

  function History<C>(legacy: seq<Row<C>>, events: seq<Event<C>>, hash: Digest<C>): seq<Row<C>> {
    if events == [] then legacy
    else Step(History(legacy, events[..|events| - 1], hash), events[|events| - 1], hash)
  }

  /** Every insert draws an id above all rows it finds. */
  ghost predicate InLockOrder<C>(legacy: seq<Row<C>>, events: seq<Event<C>>, hash: Digest<C>) {
    forall n :: 0 <= n < |events| && events[n].Insert? ==> Newest(History(legacy, events[..n], hash), events[n].id)
  }

  lemma OrderFront<C>(legacy: seq<Row<C>>, events: seq<Event<C>>, hash: Digest<C>)
    requires events != []
    ensures var n := |events| - 1;
            InLockOrder(legacy, events, hash) <==>
            InLockOrder(legacy, events[..n], hash) &&
            (events[n].Insert? ==> Newest(History(legacy, events[..n], hash), events[n].id))
  {
    var front := events[..|events| - 1];
    assert forall n :: 0 <= n < |front| ==> front[..n] == events[..n] && front[n] == events[n];
  }

  lemma BackfillNothing<C>(log: seq<Row<C>>, hash: Digest<C>)
    requires Chained(log, hash)
    ensures Backfilled(log, hash) == log
  {
    FillNothing(log, LastKnown(log), hash);
  }

  lemma StepChains<C>(log: seq<Row<C>>, e: Event<C>, hash: Digest<C>)
    requires Chained(log, hash) && (e.Insert? ==> Newest(log, e.id))
    ensures Chained(Step(log, e, hash), hash)
  {
    match e
    case Insert(id, content) => InsertChains(log, id, content, hash);
    case Backfill => BackfillNothing(log, hash);
    case Purge(count) =>
      if count < |log| {
        ChainedSuffix(log, count, hash);
      }
  }

  /** A chained log stays chained over every history of ids in lock order, purges included. */
  lemma {:induction false} ChainedForGood<C>(log: seq<Row<C>>, events: seq<Event<C>>, hash: Digest<C>)
    requires Chained(log, hash) && InLockOrder(log, events, hash)
    ensures Chained(History(log, events, hash), hash)
  {
    if events != [] {
      var n := |events| - 1;
      OrderFront(log, events, hash);
      ChainedForGood(log, events[..n], hash);
      StepChains(History(log, events[..n], hash), events[n], hash);
    }
  }

  // ---- the trigger rebuilds what the backfill makes ----

  function InsertsOf<C>(rows: seq<Row<C>>): seq<Event<C>> {
    seq(|rows|, i requires 0 <= i < |rows| => Insert(rows[i].id, rows[i].content))
  }

  lemma {:induction false} RebuiltIds<C>(log: seq<Row<C>>, rows: seq<Row<C>>, hash: Digest<C>)
    ensures forall i :: 0 <= i < |log| + |rows| ==> Rebuilt(log, rows, hash)[i].id == (log + rows)[i].id
  {
    if rows != [] {
      RebuiltIds(log, rows[..|rows| - 1], hash);
    }
  }

  lemma NextIsNewest<C>(log: seq<Row<C>>, rows: seq<Row<C>>, hash: Digest<C>)
    requires rows != [] && Sorted(log + rows)
    ensures Newest(Rebuilt(log, rows[..|rows| - 1], hash), rows[|rows| - 1].id)
  {
    var n := |rows| - 1;
    var before := Rebuilt(log, rows[..n], hash);
    RebuiltIds(log, rows[..n], hash);
    if before != [] {
      var i := |before| - 1;
      assert before[i].id == (log + rows[..n])[i].id;
      assert (log + rows[..n])[i] == (log + rows)[i] && (log + rows)[|log| + n] == rows[n];
    }
  }

  lemma SortedFront<C>(log: seq<Row<C>>, rows: seq<Row<C>>)
    requires rows != [] && Sorted(log + rows)
    ensures Sorted(log + rows[..|rows| - 1])
  {
    var front := log + rows[..|rows| - 1];
    assert forall i :: 0 <= i < |front| ==> front[i] == (log + rows)[i];
  }

  /** Rebuilt is the history of triggered inserts of those rows. */
  lemma {:induction false} RebuiltIsHistory<C>(log: seq<Row<C>>, rows: seq<Row<C>>, hash: Digest<C>)
    requires Sorted(log + rows)
    ensures History(log, InsertsOf(rows), hash) == Rebuilt(log, rows, hash)
    ensures InLockOrder(log, InsertsOf(rows), hash)
  {
    if rows != [] {
      var n := |rows| - 1;
      var events, before := InsertsOf(rows), Rebuilt(log, rows[..n], hash);
      SortedFront(log, rows);
      RebuiltIsHistory(log, rows[..n], hash);
      assert events[..n] == InsertsOf(rows[..n]) && events[n] == Insert(rows[n].id, rows[n].content);
      NextIsNewest(log, rows, hash);
      NewestAppends(before, rows[n].id, rows[n].content, hash);
      OrderFront(log, events, hash);
    }
  }

  // ---- rows older than the columns ----

  /** How many rows older than the columns are still there and no backfill has linked, and whether a triggered
      insert came while there were any: after that, no backfill can link them. */
  function Legacy<C>(present: nat, events: seq<Event<C>>): (nat, bool) {
    if events == [] then (present, false)
    else
      var (left, stuck) := Legacy(present, events[..|events| - 1]);
      match events[|events| - 1]
      case Insert(_, _) => (left, stuck || left > 0)
      case Backfill => (if stuck then left else 0, stuck)
      case Purge(count) => (if count < left then left - count else 0, stuck)
  }

  /** The rows from `k` on are a chain of their own, in the middle of the log. */
  ghost predicate Restarts<C>(log: seq<Row<C>>, k: nat, hash: Digest<C>) {
    0 < k < |log| && log[k].prev == None && Chained(log[k..], hash)
  }

  lemma RestartIsBroken<C(!new)>(log: seq<Row<C>>, k: nat, hash: Digest<C>)
    requires IsDigest(hash) && Restarts(log, k, hash)
    ensures !Chained(log, hash)
  {
    assert hash(Text(log[k - 1].prev), log[k - 1].content) != "";
  }

  /** What a log with `left` unlinked rows looks like. */
  ghost predicate Shape<C>(log: seq<Row<C>>, left: nat, stuck: bool, hash: Digest<C>) {
    if left == 0 then Chained(log, hash)
    else if stuck then Restarts(log, left, hash)
    else |log| == left && Unhashed(log)
  }

  lemma InsertShape<C>(log: seq<Row<C>>, left: nat, stuck: bool, id: int, content: C, hash: Digest<C>)
    requires Shape(log, left, stuck, hash) && Newest(log, id)
    ensures Shape(Inserted(log, id, content, hash), left, stuck || left > 0, hash)
  {
    NewestAppends(log, id, content, hash);
    var after := Appended(log, id, content, hash);
    if left == 0 {
      InsertChains(log, id, content, hash);
    } else if stuck {
      assert after[left..] == Appended(log[left..], id, content, hash);
    } else {
      assert after[left..] == [after[left]];
    }
  }

  lemma BackfillStuck<C>(log: seq<Row<C>>, left: nat, hash: Digest<C>)
    requires Restarts(log, left, hash)
    ensures Restarts(Backfilled(log, hash), left, hash)
  {
    var after := Backfilled(log, hash);
    FilledRows(log, LastKnown(log), hash);
    forall i | left <= i < |log| ensures after[i] == log[i] {
      assert log[i] == log[left..][i - left];
    }
    assert after[left..] == log[left..];
  }

  lemma BackfillShape<C>(log: seq<Row<C>>, left: nat, stuck: bool, hash: Digest<C>)
    requires Shape(log, left, stuck, hash)
    ensures Shape(Backfilled(log, hash), if stuck then left else 0, stuck, hash)
  {
    if left == 0 {
      BackfillNothing(log, hash);
    } else if stuck {
      BackfillStuck(log, left, hash);
    } else {
      BackfillIsTrigger([], log, hash);
      assert [] + log == log;
    }
  }

  lemma PurgeShape<C>(log: seq<Row<C>>, left: nat, stuck: bool, count: nat, hash: Digest<C>)
    requires Shape(log, left, stuck, hash)
    ensures Shape(Purged(log, count), if count < left then left - count else 0, stuck, hash)
  {
    if left == 0 || count >= left {
      if count < |log| {
        if left == 0 {
          ChainedSuffix(log, count, hash);
        } else {
          ChainedSuffix(log[left..], count - left, hash);
          assert log[left..][count - left..] == log[count..];
        }
      }
    } else if stuck {
      assert log[count..][left - count..] == log[left..];
    }
  }

  lemma {:induction false} HistoryShape<C>(legacy: seq<Row<C>>, events: seq<Event<C>>, hash: Digest<C>)
    requires Unhashed(legacy) && InLockOrder(legacy, events, hash)
    ensures Shape(History(legacy, events, hash), Legacy(|legacy|, events).0, Legacy(|legacy|, events).1, hash)
  {
    if events != [] {
      var n := |events| - 1;
      OrderFront(legacy, events, hash);
      HistoryShape(legacy, events[..n], hash);
      var log := History(legacy, events[..n], hash);
      var (left, stuck) := Legacy(|legacy|, events[..n]);
      match events[n]
      case Insert(id, content) => InsertShape(log, left, stuck, id, content, hash);
      case Backfill => BackfillShape(log, left, stuck, hash);
      case Purge(count) => PurgeShape(log, left, stuck, count, hash);
    }
  }

  /** A log that began with rows older than the columns verifies clean after any history of inserts, backfills and
      purges if and only if none of those rows is left unlinked. */
  lemma CleanHistoryExactly<C(!new)>(legacy: seq<Row<C>>, events: seq<Event<C>>, hash: Digest<C>)
    requires IsDigest(hash) && Unhashed(legacy) && InLockOrder(legacy, events, hash)
    ensures Chained(History(legacy, events, hash), hash) <==> Legacy(|legacy|, events).0 == 0
  {
    HistoryShape(legacy, events, hash);
    var log := History(legacy, events, hash);
    var (left, stuck) := Legacy(|legacy|, events);
    if left > 0 {
      if stuck {
        RestartIsBroken(log, left, hash);
      } else {
        assert log[0].hash == None;
      }
    }
  }

  lemma {:induction false} NoPurgeLegacy<C>(present: nat, events: seq<Event<C>>)
    requires present > 0 && events != [] && forall n :: 0 <= n < |events| ==> !events[n].Purge?
    ensures Legacy(present, events) == if events[0].Backfill? then (0, false) else (present, true)
  {
    if |events| > 1 {
      NoPurgeLegacy(present, events[..|events| - 1]);
    } else {
      assert events[..0] == [];
    }
  }

  /** Before the first purge: clean if and only if there were no such rows or the backfill ran before the first
      triggered insert, as the migration orders it. */
  lemma BackfillComesFirst<C(!new)>(legacy: seq<Row<C>>, events: seq<Event<C>>, hash: Digest<C>)
    requires IsDigest(hash) && Unhashed(legacy) && InLockOrder(legacy, events, hash)
    requires forall n :: 0 <= n < |events| ==> !events[n].Purge?
    ensures Chained(History(legacy, events, hash), hash) <==> legacy == [] || (events != [] && events[0].Backfill?)
  {
    CleanHistoryExactly(legacy, events, hash);
    if legacy == [] {
      ChainedForGood(legacy, events, hash);
    } else if events != [] {
      NoPurgeLegacy(|legacy|, events);
    }
  }

  // ---- ids out of lock order ----

  /** A late row at any place of a chained log leaves it chained if and only if two hashes coincide: the row before
      it ends in the last hash, and the row after it happens to link to the late one. */
  lemma LateInsertExactly<C>(log: seq<Row<C>>, k: nat, id: int, content: C, hash: Digest<C>)
    requires Chained(log, hash) && k < |log|
    ensures var late := Hashed(id, content, LastHash(log), hash);
            Chained(log[..k] + [late] + log[k..], hash) <==>
            (k > 0 ==> log[k - 1].hash == LastHash(log)) && Some(Text(log[k].prev)) == late.hash
  {
    var late := Hashed(id, content, LastHash(log), hash);
    var after := log[..k] + [late] + log[k..];
    assert forall i :: 0 <= i < k ==> after[i] == log[i];
    assert forall i :: k < i < |after| ==> after[i] == log[i - 1];
    assert after[k] == late && after[k + 1] == log[k];
    if (k > 0 ==> log[k - 1].hash == LastHash(log)) && Some(Text(log[k].prev)) == late.hash {
      forall i | 0 < i < |after| ensures Some(Text(after[i].prev)) == after[i - 1].hash {
        if i > k + 1 {
          assert Some(Text(log[i - 1].prev)) == log[i - 2].hash;
        }
      }
    }
  }

  /** Some row of the log starts the chain: nothing has been purged. */
  ghost predicate Rooted<C>(log: seq<Row<C>>) {
    exists i :: 0 <= i < |log| && Text(log[i].prev) == ""
  }

  /** The row at `i` links to one that stands at or behind it. */
  ghost predicate LinksBackAt<C>(log: seq<Row<C>>, i: nat)
    requires i < |log|
  {
    exists j :: i <= j < |log| && Some(Text(log[i].prev)) == log[j].hash
  }

  ghost predicate LinksBack<C>(log: seq<Row<C>>) {
    exists i :: 0 <= i < |log| && LinksBackAt(log, i)
  }

  lemma {:induction false} NoCycle<C(!new)>(log: seq<Row<C>>, i: nat, j: nat, hash: Digest<C>)
    requires IsDigest(hash) && Chained(log, hash) && i <= j < |log| && Some(Text(log[i].prev)) == log[j].hash
    ensures Text(log[0].prev) != ""
  {
    assert hash(Text(log[j].prev), log[j].content) != "";
    if i > 0 {
      assert Some(Text(log[i].prev)) == log[i - 1].hash;
      assert Text(log[i - 1].prev) == Text(log[j].prev);
      assert Some(Text(log[j].prev)) == log[j - 1].hash;
      NoCycle(log, i - 1, j - 1, hash);
    }
  }

  lemma RootIsFirst<C(!new)>(log: seq<Row<C>>, r: nat, hash: Digest<C>)
    requires IsDigest(hash) && Chained(log, hash) && r < |log| && Text(log[r].prev) == ""
    ensures r == 0
  {
    var before := log[if r > 0 then r - 1 else 0];
    assert hash(Text(before.prev), before.content) != "";
  }

  /** A log with its first row never links back while it is chained. */
  lemma RootedLinks<C(!new)>(log: seq<Row<C>>, hash: Digest<C>)
    requires IsDigest(hash) && Rooted(log) && Chained(log, hash)
    ensures !LinksBack(log)
  {
    var r :| 0 <= r < |log| && Text(log[r].prev) == "";
    RootIsFirst(log, r, hash);
    forall i | 0 <= i < |log| ensures !LinksBackAt(log, i) {
      if LinksBackAt(log, i) {
        var j :| i <= j < |log| && Some(Text(log[i].prev)) == log[j].hash;
        NoCycle(log, i, j, hash);
      }
    }
  }

  lemma InsertAt<C>(log: seq<Row<C>>, id: int, content: C, hash: Digest<C>, i: nat)
    requires i < |log|
    ensures var k := Place(log, id);
            Inserted(log, id, content, hash)[if i < k then i else i + 1] == log[i]
  {
  }

  /** Rows keep their order, so a row that links back goes on doing so. */
  lemma InsertLinksBack<C>(log: seq<Row<C>>, id: int, content: C, hash: Digest<C>, i: nat)
    requires i < |log| && LinksBackAt(log, i)
    ensures LinksBackAt(Inserted(log, id, content, hash), if i < Place(log, id) then i else i + 1)
  {
    var j :| i <= j < |log| && Some(Text(log[i].prev)) == log[j].hash;
    InsertAt(log, id, content, hash, i);
    InsertAt(log, id, content, hash, j);
  }

  lemma LinksBackStays<C>(log: seq<Row<C>>, e: Event<C>, hash: Digest<C>)
    requires !e.Purge? && LinksBack(log) && forall i :: 0 <= i < |log| ==> log[i].hash != None
    ensures LinksBack(Step(log, e, hash))
  {
    var i :| 0 <= i < |log| && LinksBackAt(log, i);
    match e
    case Insert(id, content) => InsertLinksBack(log, id, content, hash, i);
    case Backfill => FillNothing(log, LastKnown(log), hash);
  }

  lemma {:induction false} PlaceBeforeLast<C>(log: seq<Row<C>>, id: int)
    ensures Newest(log, id) || Place(log, id) < |log|
  {
  }

  /** A late insert makes the late row link back. */
  lemma LateLinksBack<C>(log: seq<Row<C>>, id: int, content: C, hash: Digest<C>)
    requires Place(log, id) < |log| && LastHash(log) != None
    ensures LinksBackAt(Inserted(log, id, content, hash), Place(log, id))
  {
    InsertAt(log, id, content, hash, |log| - 1);
  }

  lemma StepHashed<C>(log: seq<Row<C>>, e: Event<C>, hash: Digest<C>)
    requires !e.Purge? && forall i :: 0 <= i < |log| ==> log[i].hash != None
    ensures forall i :: 0 <= i < |Step(log, e, hash)| ==> Step(log, e, hash)[i].hash != None
    ensures Rooted(log) || (log == [] && e.Insert?) ==> Rooted(Step(log, e, hash))
  {
    if e.Backfill? {
      FillNothing(log, LastKnown(log), hash);
    } else {
      var k := Place(log, e.id);
      var after := Inserted(log, e.id, e.content, hash);
      if Rooted(log) {
        var r :| 0 <= r < |log| && Text(log[r].prev) == "";
        InsertAt(log, e.id, e.content, hash, r);
      } else {
        assert log == [] ==> Text(after[0].prev) == "";
      }
    }
  }

  lemma {:induction false} OutOfOrderLinksBack<C>(log: seq<Row<C>>, events: seq<Event<C>>, hash: Digest<C>)
    requires Chained(log, hash) && (log == [] || Rooted(log))
    requires forall n :: 0 <= n < |events| ==> !events[n].Purge?
    ensures var after := History(log, events, hash);
            && (forall i :: 0 <= i < |after| ==> after[i].hash != None)
            && (after == [] || Rooted(after))
            && (!InLockOrder(log, events, hash) ==> LinksBack(after))
  {
    if events != [] {
      var n := |events| - 1;
      var before := History(log, events[..n], hash);
      OutOfOrderLinksBack(log, events[..n], hash);
      OrderFront(log, events, hash);
      StepHashed(before, events[n], hash);
      if before == [] && events[n].Backfill? {
        assert Backfilled(before, hash) == [];
      }
      if LinksBack(before) {
        LinksBackStays(before, events[n], hash);
      } else if events[n].Insert? && !Newest(before, events[n].id) {
        PlaceBeforeLast(before, events[n].id);
        LateLinksBack(before, events[n].id, events[n].content, hash);
      }
    }
  }

  /** A log that holds its first row verifies clean after any history of triggered inserts and backfills if and
      only if every id was drawn in lock order. */
  lemma CleanInLockOrderExactly<C(!new)>(log: seq<Row<C>>, events: seq<Event<C>>, hash: Digest<C>)
    requires IsDigest(hash) && Chained(log, hash) && (log == [] || Rooted(log))
    requires forall n :: 0 <= n < |events| ==> !events[n].Purge?
    ensures Chained(History(log, events, hash), hash) <==> InLockOrder(log, events, hash)
  {
    if InLockOrder(log, events, hash) {
      ChainedForGood(log, events, hash);
    } else {
      OutOfOrderLinksBack(log, events, hash);
      var after := History(log, events, hash);
      if Chained(after, hash) {
        RootedLinks(after, hash);
      }
    }
  }

  // ---- purges included ----

  /** The length of the chain behind every digest the history has made. */
  ghost predicate Depths<C(!new)>(depth: map<string, nat>, hash: Digest<C>) {
    && "" in depth && depth[""] == 0
    && forall t :: t in depth && t != "" ==> exists p, c :: hash(p, c) == t && p in depth && depth[t] == depth[p] + 1
  }

  ghost predicate Measured<C>(log: seq<Row<C>>, depth: map<string, nat>, hash: Digest<C>) {
    forall i :: 0 <= i < |log| ==> RowMeasured(log[i], depth, hash)
  }

  ghost predicate RowMeasured<C>(r: Row<C>, depth: map<string, nat>, hash: Digest<C>) {
    && r.hash == Some(hash(Text(r.prev), r.content))
    && Text(r.prev) in depth && r.hash.value in depth && depth[r.hash.value] == depth[Text(r.prev)] + 1
  }

  /** A new digest is one longer than the one it builds on, whether or not it was made before. */
  lemma Extend<C(!new)>(depth: map<string, nat>, p: string, c: C, hash: Digest<C>) returns (more: map<string, nat>)
    requires IsDigest(hash) && Depths(depth, hash) && p in depth
    ensures Depths(more, hash) && hash(p, c) in more && more[hash(p, c)] == more[p] + 1
    ensures forall t :: t in depth ==> t in more && more[t] == depth[t]
  {
    var t := hash(p, c);
    assert t != "";
    if t in depth {
      more := depth;
    } else {
      more := depth[t := depth[p] + 1];
      forall u | u in more && u != "" ensures exists q, d :: hash(q, d) == u && q in more && more[u] == more[q] + 1 {
        if u == t {
          assert hash(p, c) == u && p in more && more[u] == more[p] + 1;
        } else {
          var q, d :| hash(q, d) == u && q in depth && depth[u] == depth[q] + 1;
          assert q in more && more[q] == depth[q];
        }
      }
    }
  }

  lemma MeasuredMore<C>(log: seq<Row<C>>, depth: map<string, nat>, more: map<string, nat>, hash: Digest<C>)
    requires Measured(log, depth, hash) && forall t :: t in depth ==> t in more && more[t] == depth[t]
    ensures Measured(log, more, hash)
  {
    forall i | 0 <= i < |log| ensures RowMeasured(log[i], more, hash) {
      assert RowMeasured(log[i], depth, hash);
    }
  }

  lemma {:induction false} ChainMeasured<C(!new)>(log: seq<Row<C>>, hash: Digest<C>) returns (depth: map<string, nat>)
    requires IsDigest(hash) && Chained(log, hash) && (log != [] ==> Text(log[0].prev) == "")
    ensures Depths(depth, hash) && Measured(log, depth, hash)
  {
    if log == [] {
      depth := map["" := 0];
    } else {
      var n := |log| - 1;
      ChainedFront(log, hash);
      var before := ChainMeasured(log[..n], hash);
      assert n > 0 ==> RowMeasured(log[..n][n - 1], before, hash);
      depth := Extend(before, Text(log[n].prev), log[n].content, hash);
      MeasuredMore(log[..n], before, depth, hash);
      assert forall i :: 0 <= i < n ==> log[i] == log[..n][i];
    }
  }

  lemma InsertMeasured<C>(log: seq<Row<C>>, depth: map<string, nat>, id: int, content: C, hash: Digest<C>)
    requires Measured(log, depth, hash) && RowMeasured(Hashed(id, content, LastHash(log), hash), depth, hash)
    ensures Measured(Inserted(log, id, content, hash), depth, hash)
  {
    var k := Place(log, id);
    var after := Inserted(log, id, content, hash);
    forall i | 0 <= i < |after| ensures RowMeasured(after[i], depth, hash) {
      if i == k {
        assert after[i] == Hashed(id, content, LastHash(log), hash);
      } else {
        assert after[i] == log[if i < k then i else i - 1];
      }
    }
  }

  lemma PurgeMeasured<C>(log: seq<Row<C>>, depth: map<string, nat>, count: nat, hash: Digest<C>)
    requires Measured(log, depth, hash)
    ensures Measured(Purged(log, count), depth, hash)
  {
    var after := Purged(log, count);
    forall i | 0 <= i < |after| ensures RowMeasured(after[i], depth, hash) {
      assert after[i] == log[i + count];
    }
  }

  lemma BackfillMeasured<C>(log: seq<Row<C>>, depth: map<string, nat>, hash: Digest<C>)
    requires Measured(log, depth, hash)
    ensures Backfilled(log, hash) == log
  {
    forall i | 0 <= i < |log| ensures log[i].hash != None {
      assert RowMeasured(log[i], depth, hash);
    }
    FillNothing(log, LastKnown(log), hash);
  }

  lemma StepMeasured<C(!new)>(log: seq<Row<C>>, depth: map<string, nat>, e: Event<C>, hash: Digest<C>)
    returns (more: map<string, nat>)
    requires IsDigest(hash) && Depths(depth, hash) && Measured(log, depth, hash)
    ensures Depths(more, hash) && Measured(Step(log, e, hash), more, hash)
  {
    more := depth;
    match e
    case Insert(id, content) =>
      assert log != [] ==> RowMeasured(log[|log| - 1], depth, hash);
      more := Extend(depth, Text(LastHash(log)), content, hash);
      MeasuredMore(log, depth, more, hash);
      InsertMeasured(log, more, id, content, hash);
    case Backfill => BackfillMeasured(log, depth, hash);
    case Purge(count) => PurgeMeasured(log, depth, count, hash);
  }

  /** The link at `i` is whole, or one of its two rows links back. */
  ghost predicate LinkExplained<C>(log: seq<Row<C>>, i: nat)
    requires 0 < i < |log|
  {
    Some(Text(log[i].prev)) == log[i - 1].hash || LinksBackAt(log, i) || LinksBackAt(log, i - 1)
  }

  ghost predicate BreaksExplained<C>(log: seq<Row<C>>) {
    forall i :: 0 < i < |log| ==> LinkExplained(log, i)
  }

  /** A link between two rows that stay neighbours stays explained. */
  lemma InsertKeepsLink<C>(log: seq<Row<C>>, id: int, content: C, hash: Digest<C>, i: nat)
    requires 0 < i < |log| && i != Place(log, id) && LinkExplained(log, i)
    ensures LinkExplained(Inserted(log, id, content, hash), if i < Place(log, id) then i else i + 1)
  {
    InsertAt(log, id, content, hash, i);
    InsertAt(log, id, content, hash, i - 1);
    if LinksBackAt(log, i) {
      InsertLinksBack(log, id, content, hash, i);
    } else if LinksBackAt(log, i - 1) {
      InsertLinksBack(log, id, content, hash, i - 1);
    }
  }

  lemma InsertExplained<C>(log: seq<Row<C>>, id: int, content: C, hash: Digest<C>)
    requires BreaksExplained(log) && (log != [] ==> LastHash(log) != None)
    ensures BreaksExplained(Inserted(log, id, content, hash))
  {
    var k := Place(log, id);
    var after := Inserted(log, id, content, hash);
    if k < |log| {
      LateLinksBack(log, id, content, hash);
    }
    forall i | 0 < i < |after| ensures LinkExplained(after, i) {
      if i < k {
        InsertKeepsLink(log, id, content, hash, i);
      } else if i > k + 1 {
        InsertKeepsLink(log, id, content, hash, i - 1);
      }
    }
  }

  lemma PurgeLinksBack<C>(log: seq<Row<C>>, count: nat, i: nat)
    requires count <= i < |log| && LinksBackAt(log, i)
    ensures LinksBackAt(Purged(log, count), i - count)
  {
    var j :| i <= j < |log| && Some(Text(log[i].prev)) == log[j].hash;
    assert Purged(log, count)[j - count] == log[j];
  }

  lemma PurgeExplained<C>(log: seq<Row<C>>, count: nat)
    requires BreaksExplained(log)
    ensures BreaksExplained(Purged(log, count))
  {
    var after := Purged(log, count);
    forall i | 0 < i < |after| ensures LinkExplained(after, i) {
      var was := i + count;
      assert LinkExplained(log, was);
      if LinksBackAt(log, was) {
        PurgeLinksBack(log, count, was);
      } else if LinksBackAt(log, was - 1) {
        PurgeLinksBack(log, count, was - 1);
      }
    }
  }

  lemma {:induction false} HistoryMeasured<C(!new)>(log: seq<Row<C>>, events: seq<Event<C>>, hash: Digest<C>)
    returns (depth: map<string, nat>)
    requires IsDigest(hash) && Chained(log, hash) && (log != [] ==> Text(log[0].prev) == "")
    ensures var after := History(log, events, hash);
            Depths(depth, hash) && Measured(after, depth, hash) && BreaksExplained(after)
  {
    if events == [] {
      depth := ChainMeasured(log, hash);
    } else {
      var n := |events| - 1;
      var before := History(log, events[..n], hash);
      depth := HistoryMeasured(log, events[..n], hash);
      match events[n] {
        case Insert(id, content) =>
          assert before != [] ==> RowMeasured(before[|before| - 1], depth, hash);
          InsertExplained(before, id, content, hash);
        case Backfill => BackfillMeasured(before, depth, hash);
        case Purge(count) => PurgeExplained(before, count);
      }
      depth := StepMeasured(before, depth, events[n], hash);
    }
  }

  /** Along a chained log the depths count up. */
  lemma {:induction false} DepthsCountUp<C>(log: seq<Row<C>>, depth: map<string, nat>, hash: Digest<C>, i: nat, j: nat)
    requires Chained(log, hash) && Measured(log, depth, hash) && i <= j < |log|
    ensures RowMeasured(log[i], depth, hash) && RowMeasured(log[j], depth, hash)
    ensures depth[log[j].hash.value] == depth[log[i].hash.value] + (j - i)
  {
    if i < j {
      DepthsCountUp(log, depth, hash, i, j - 1);
      assert Some(Text(log[j].prev)) == log[j - 1].hash;
    }
  }

  /** Whatever ids the inserts drew, and wherever purges cut: a log that grew from nothing, or from a chained log
      with its first row, verifies clean if and only if no row stands before the one it links to. */
  lemma CleanWithoutBackLinksExactly<C(!new)>(log: seq<Row<C>>, events: seq<Event<C>>, hash: Digest<C>)
    requires IsDigest(hash) && Chained(log, hash) && (log != [] ==> Text(log[0].prev) == "")
    ensures Chained(History(log, events, hash), hash) <==> !LinksBack(History(log, events, hash))
  {
    var after := History(log, events, hash);
    var depth := HistoryMeasured(log, events, hash);
    if Chained(after, hash) {
      forall i | 0 <= i < |after| ensures !LinksBackAt(after, i) {
        forall j | i <= j < |after| ensures Some(Text(after[i].prev)) != after[j].hash {
          DepthsCountUp(after, depth, hash, i, j);
        }
      }
    }
    if !LinksBack(after) {
      forall i | 0 <= i < |after| ensures after[i].hash == Some(hash(Text(after[i].prev), after[i].content)) {
        assert RowMeasured(after[i], depth, hash);
      }
      forall i | 0 < i < |after| ensures Some(Text(after[i].prev)) == after[i - 1].hash {
        assert LinkExplained(after, i) && !LinksBackAt(after, i) && !LinksBackAt(after, i - 1);
      }
    }
  }

  // ---- the purge by age ----

  /** The retention purge as it is written: by the creation time, which is part of the content. */
  function Kept<C>(log: seq<Row<C>>, expired: C -> bool): seq<Row<C>> {
    if log == [] then []
    else
      var last := log[|log| - 1];
      Kept(log[..|log| - 1], expired) + if expired(last.content) then [] else [last]
  }

  /** It takes no row from between two rows that it leaves. */
  ghost predicate NoGap<C>(log: seq<Row<C>>, expired: C -> bool) {
    forall i, k, j :: 0 <= i < k < j < |log| && !expired(log[i].content) && !expired(log[j].content) ==>
      !expired(log[k].content)
  }

  /** Where creation times follow the ids, it is the purge of the oldest rows. */
  lemma {:induction false} AgedPurge<C>(log: seq<Row<C>>, expired: C -> bool) returns (count: nat)
    requires forall i, j :: 0 <= i < j < |log| && expired(log[j].content) ==> expired(log[i].content)
    ensures count <= |log| && Kept(log, expired) == Purged(log, count)
  {
    if log == [] {
      count := 0;
    } else {
      var n := |log| - 1;
      count := AgedPurge(log[..n], expired);
      if expired(log[n].content) {
        AllExpired(log[..n], expired);
        count := |log|;
      } else {
        assert log[count..] == log[..n][count..] + [log[n]];
      }
    }
  }

  lemma {:induction false} AllExpired<C>(log: seq<Row<C>>, expired: C -> bool)
    requires forall i :: 0 <= i < |log| ==> expired(log[i].content)
    ensures Kept(log, expired) == []
  {
    if log != [] {
      AllExpired(log[..|log| - 1], expired);
    }
  }

  lemma {:induction false} LastKept<C>(log: seq<Row<C>>, expired: C -> bool) returns (i: nat)
    requires Kept(log, expired) != []
    ensures i < |log| && !expired(log[i].content) && Kept(log, expired)[|Kept(log, expired)| - 1] == log[i]
    ensures forall k :: i < k < |log| ==> expired(log[k].content)
  {
    var n := |log| - 1;
    if expired(log[n].content) {
      assert Kept(log, expired) == Kept(log[..n], expired);
      i := LastKept(log[..n], expired);
      assert forall k :: 0 <= k < n ==> log[..n][k] == log[k];
    } else {
      i := n;
    }
  }

  /** Rows of a chained log that does not link back are linked exactly when they are neighbours. */
  lemma LinkedNeighbours<C>(log: seq<Row<C>>, i: nat, j: nat, hash: Digest<C>)
    requires Chained(log, hash) && !LinksBack(log) && i < j < |log|
    ensures Some(Text(log[j].prev)) == log[i].hash <==> j == i + 1
  {
    assert Some(Text(log[i + 1].prev)) == log[i].hash && Some(Text(log[j].prev)) == log[j - 1].hash;
    assert !LinksBackAt(log, i + 1);
  }

  lemma FrontLinks<C>(log: seq<Row<C>>)
    requires log != [] && !LinksBack(log)
    ensures !LinksBack(log[..|log| - 1])
  {
    var front := log[..|log| - 1];
    forall i | 0 <= i < |front| ensures !LinksBackAt(front, i) {
      assert !LinksBackAt(log, i);
    }
  }

  lemma GapLess<C>(log: seq<Row<C>>, expired: C -> bool)
    requires log != []
    ensures NoGap(log, expired) ==> NoGap(log[..|log| - 1], expired)
    ensures expired(log[|log| - 1].content) && NoGap(log[..|log| - 1], expired) ==> NoGap(log, expired)
  {
    var front := log[..|log| - 1];
    assert forall k :: 0 <= k < |front| ==> front[k] == log[k];
    if expired(log[|log| - 1].content) && NoGap(front, expired) {
      forall i, k, j | 0 <= i < k < j < |log| && !expired(log[i].content) && !expired(log[j].content)
        ensures !expired(log[k].content)
      {
        assert !expired(front[i].content) && !expired(front[j].content);
        assert front[k] == log[k];
      }
    }
  }

  /** The last row stays, and `i` is the last one before it that does. */
  lemma GapAtEnd<C>(log: seq<Row<C>>, expired: C -> bool, i: nat)
    requires i < |log| - 1 && !expired(log[i].content) && !expired(log[|log| - 1].content)
    requires forall k :: i < k < |log| - 1 ==> expired(log[k].content)
    ensures NoGap(log, expired) <==> NoGap(log[..|log| - 1], expired) && i == |log| - 2
  {
    var n := |log| - 1;
    GapLess(log, expired);
    assert i < n - 1 ==> expired(log[n - 1].content);
    if NoGap(log[..n], expired) && i == n - 1 {
      forall h, k, j | 0 <= h < k < j < |log| && !expired(log[h].content) && !expired(log[j].content)
        ensures !expired(log[k].content)
      {
        assert k < n - 1 ==> !expired(log[..n][h].content) && !expired(log[..n][n - 1].content);
        assert k < n - 1 ==> !expired(log[..n][k].content);
      }
    }
  }

  lemma {:induction false} NoneKept<C>(log: seq<Row<C>>, expired: C -> bool)
    requires Kept(log, expired) == []
    ensures forall i :: 0 <= i < |log| ==> expired(log[i].content)
  {
    if log != [] {
      NoneKept(log[..|log| - 1], expired);
    }
  }

  /** A row kept behind the last one that stays before it. */
  lemma KeepsLast<C>(log: seq<Row<C>>, expired: C -> bool, hash: Digest<C>)
    requires log != [] && Chained(log, hash) && !LinksBack(log) && !expired(log[|log| - 1].content)
    requires var front := log[..|log| - 1];
             Chained(Kept(front, expired), hash) <==> NoGap(front, expired)
    ensures Chained(Kept(log, expired), hash) <==> NoGap(log, expired)
  {
    var n := |log| - 1;
    var kept := Kept(log[..n], expired);
    AppendChained(kept, log[n], hash);
    if kept != [] {
      var i := LastKept(log[..n], expired);
      assert forall k :: 0 <= k < n ==> log[..n][k] == log[k];
      LinkedNeighbours(log, i, n, hash);
      GapAtEnd(log, expired, i);
    } else {
      NoneKept(log[..n], expired);
      assert forall k :: 0 <= k < n ==> log[..n][k] == log[k];
    }
  }

  lemma AppendChained<C>(log: seq<Row<C>>, r: Row<C>, hash: Digest<C>)
    requires r.hash == Some(hash(Text(r.prev), r.content))
    ensures Chained(log + [r], hash) <==>
            Chained(log, hash) && (log != [] ==> Some(Text(r.prev)) == log[|log| - 1].hash)
  {
    ChainedFront(log + [r], hash);
    assert (log + [r])[..|log|] == log;
  }

  /** A purge leaves a chained log chained if and only if it takes no row from between two that it leaves. */
  lemma {:induction false} PurgeExactly<C>(log: seq<Row<C>>, expired: C -> bool, hash: Digest<C>)
    requires Chained(log, hash) && !LinksBack(log)
    ensures Chained(Kept(log, expired), hash) <==> NoGap(log, expired)
  {
    if log != [] {
      var n := |log| - 1;
      FrontLinks(log);
      ChainedFront(log, hash);
      PurgeExactly(log[..n], expired, hash);
      if expired(log[n].content) {
        assert Kept(log, expired) == Kept(log[..n], expired);
        GapLess(log, expired);
      } else {
        KeepsLast(log, expired, hash);
      }
    }
  }
}
