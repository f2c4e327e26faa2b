/** The tamper-evident audit log: rows in id order, each hashed together with its predecessor's hash.
    `hash` is the digest of a previous hash (the empty text for none) and a row's content. */
module AuditChain {
  import opened Options

  datatype Row<C> = Row(id: int, content: C, prev: Option<string>, hash: Option<string>)
  datatype Report = Report(checked: nat, broken: nat, bad: nat, firstBroken: Option<int>)
  type Digest<!C> = (string, C) -> string

  /** COALESCE(t, ''). */
  function Text(t: Option<string>): string {
    if t == None then "" else t.value
  }

  /** The previous hash the insert trigger reads: that of the row with the highest id. */
  function LastHash<C>(log: seq<Row<C>>): Option<string> {
    if log == [] then None else log[|log| - 1].hash
  }

  function Hashed<C>(id: int, content: C, prev: Option<string>, hash: Digest<C>): Row<C> {
    Row(id, content, prev, Some(hash(Text(prev), content)))
  }

  /** Where a new id belongs: behind the rows up to the last one with a smaller id. */
  function Place<C>(log: seq<Row<C>>, id: int): (k: nat)
    ensures k <= |log|
  {
    if log == [] || log[|log| - 1].id < id then |log| else Place(log[..|log| - 1], id)
  }

  /** A triggered insert. The id was drawn from a sequence before the trigger took its lock, so it need not be
      the highest. */
  function Inserted<C>(log: seq<Row<C>>, id: int, content: C, hash: Digest<C>): (r: seq<Row<C>>)
    ensures |r| == |log| + 1
  {
    var k := Place(log, id);
    log[..k] + [Hashed(id, content, LastHash(log), hash)] + log[k..]
  }

  /** The id is the highest so far. */
  predicate Newest<C>(log: seq<Row<C>>, id: int) {
    log == [] || log[|log| - 1].id < id
  }

  function Appended<C>(log: seq<Row<C>>, id: int, content: C, hash: Digest<C>): seq<Row<C>> {
    log + [Hashed(id, content, LastHash(log), hash)]
  }

  ghost predicate Sorted<C>(log: seq<Row<C>>) {
    forall i, j :: 0 <= i < j < |log| ==> log[i].id < log[j].id
  }

  /** The table stays in id order under any insert of a new id. */
  lemma InsertSorts<C>(log: seq<Row<C>>, id: int, content: C, hash: Digest<C>)
    requires Sorted(log) && forall i :: 0 <= i < |log| ==> log[i].id != id
    ensures Sorted(Inserted(log, id, content, hash))
  {
    PlaceSpec(log, id);
  }

  lemma {:induction false} PlaceSpec<C>(log: seq<Row<C>>, id: int)
    requires Sorted(log) && forall i :: 0 <= i < |log| ==> log[i].id != id
    ensures forall i :: 0 <= i < |log| ==> (log[i].id < id <==> i < Place(log, id))
  {
    if log != [] && log[|log| - 1].id > id {
      PlaceSpec(log[..|log| - 1], id);
      assert forall i :: 0 <= i < |log| - 1 ==> log[..|log| - 1][i] == log[i];
    }
  }

  /** The hash of the last row that has one. */
  function LastKnown<C>(log: seq<Row<C>>): Option<string> {
    if log == [] then None
    else if log[|log| - 1].hash != None then log[|log| - 1].hash
    else LastKnown(log[..|log| - 1])
  }

  /** The backfill loop from `prev`: the rows rewritten so far and the hash to chain the next one to. */
  function Filled<C>(log: seq<Row<C>>, prev: Option<string>, hash: Digest<C>): (r: (seq<Row<C>>, Option<string>))
    ensures |r.0| == |log|
  {
    if log == [] then ([], prev)
    else
      var front := Filled(log[..|log| - 1], prev, hash);
      var last := log[|log| - 1];
      if last.hash != None then (front.0 + [last], front.1)
      else
        var row := Hashed(last.id, last.content, front.1, hash);
        (front.0 + [row], row.hash)
  }

  function Backfilled<C>(log: seq<Row<C>>, hash: Digest<C>): seq<Row<C>> {
    Filled(log, LastKnown(log), hash).0
  }

  predicate BadHash<C(==)>(r: Row<C>, hash: Digest<C>) {
    Text(r.hash) != hash(Text(r.prev), r.content)
  }

  /** The link check of the row at `i` against the row before it; a row without predecessor may start the chain. */
  predicate BrokenLink<C>(rows: seq<Row<C>>, i: nat)
    requires i < |rows|
  {
    i > 0 && rows[i - 1].hash != None && Text(rows[i].prev) != Text(rows[i - 1].hash)
  }

  /** The verifier's verdict on `rows`, which it scans in order. */
  function Scan<C(==)>(rows: seq<Row<C>>, hash: Digest<C>): Report {
    if rows == [] then Report(0, 0, 0, None)
    else
      var n := |rows| - 1;
      var front := Scan(rows[..n], hash);
      var broken, bad := BrokenLink(rows, n), BadHash(rows[n], hash);
      Report(front.checked + 1,
             front.broken + if broken then 1 else 0,
             front.bad + if bad then 1 else 0,
             if front.firstBroken == None && (broken || bad) then Some(rows[n].id) else front.firstBroken)
  }

  /** The last `limit` rows. */
  function Recent<C>(log: seq<Row<C>>, limit: nat): seq<Row<C>> {
    if limit < |log| then log[|log| - limit..] else log
  }

  class AuditLog<C(==)> {
    const hash: Digest<C>
    var rows: seq<Row<C>>

    constructor (hash: Digest<C>, rows: seq<Row<C>>)
      ensures this.hash == hash && this.rows == rows
    {
      this.hash, this.rows := hash, rows;
    }

    /** The insert trigger, and the place its row takes in id order. */
    method Insert(id: int, content: C)
      modifies this
      ensures rows == Inserted(old(rows), id, content, hash)
    {
      var prev: Option<string> := None;
      if rows != [] {
        prev := rows[|rows| - 1].hash;
      }
      var k := |rows|;
      assert rows[..k] == rows;
      while k > 0 && rows[k - 1].id >= id
        invariant 0 <= k <= |rows|
        invariant Place(rows[..k], id) == Place(rows, id)
      {
        assert rows[..k][..k - 1] == rows[..k - 1];
        k := k - 1;
      }
      rows := rows[..k] + [Row(id, content, prev, Some(hash(Text(prev), content)))] + rows[k..];
    }

    method Backfill()
      modifies this
      ensures rows == Backfilled(old(rows), hash)
    {
      ghost var was := rows;
      var prev: Option<string> := None;
      var k := |rows|;
      assert rows[..k] == rows;
      while k > 0 && prev == None
        invariant 0 <= k <= |rows|
        invariant LastKnown(rows) == if prev != None then prev else LastKnown(rows[..k])
      {
        assert rows[..k][..k - 1] == rows[..k - 1];
        k := k - 1;
        prev := rows[k].hash;
      }
      for i := 0 to |rows|
        invariant |rows| == |was|
        invariant (rows[..i], prev) == Filled(was[..i], LastKnown(was), hash)
        invariant rows[i..] == was[i..]
      {
        assert was[..i + 1][..i] == was[..i];
        assert rows[i] == rows[i..][0] == was[i..][0];
        if rows[i].hash == None {
          var h := hash(Text(prev), rows[i].content);
          rows := rows[i := rows[i].(prev := prev, hash := Some(h))];
          prev := Some(h);
        }
        assert rows[..i + 1] == rows[..i] + [rows[i]];
      }
      assert was[..|was|] == was && rows[..|rows|] == rows;
    }

    method VerifyIntegrity(limit: nat) returns (report: Report)
      ensures report == Scan(Recent(rows, limit), hash)
    {
      var recent := Recent(rows, limit);
      var expected: Option<string> := None;
      var checked, broken, bad := 0, 0, 0;
      var firstBroken: Option<int> := None;
      for i := 0 to |recent|
        invariant Report(checked, broken, bad, firstBroken) == Scan(recent[..i], hash)
        invariant expected == if i == 0 then None else recent[i - 1].hash
      {
        var r := recent[i];
        assert recent[..i + 1][..i] == recent[..i];
        checked := checked + 1;
        if expected != None && Text(r.prev) != Text(expected) {
          broken := broken + 1;
          if firstBroken == None { firstBroken := Some(r.id); }
        }
        if Text(r.hash) != hash(Text(r.prev), r.content) {
          bad := bad + 1;
          if firstBroken == None { firstBroken := Some(r.id); }
        }
        expected := r.hash;
      }
      assert recent[..|recent|] == recent;
      report := Report(checked, broken, bad, firstBroken);
    }
  }
}

/** When a log verifies clean, and what a clean log fixes. */
module AuditChainResults {
  import opened Options
  import opened AuditChain

  /** A digest: never empty, and never the same for two inputs. */
  ghost predicate IsDigest<C(!new)>(hash: Digest<C>) {
    && (forall p, c :: hash(p, c) != "")
    && (forall p, c, q, d :: hash(p, c) == hash(q, d) ==> p == q && c == d)
  }

  predicate Clean(report: Report) {
    report.broken == 0 && report.bad == 0
  }

  /** Every row carries its own hash and links to the row before it. */
  ghost predicate Chained<C>(log: seq<Row<C>>, hash: Digest<C>) {
    && (forall i :: 0 <= i < |log| ==> log[i].hash == Some(hash(Text(log[i].prev), log[i].content)))
    && (forall i :: 0 < i < |log| ==> Some(Text(log[i].prev)) == log[i - 1].hash)
  }

  lemma ChainedFront<C>(rows: seq<Row<C>>, hash: Digest<C>)
    requires rows != []
    ensures var n := |rows| - 1;
            Chained(rows, hash) <==>
            Chained(rows[..n], hash) && rows[n].hash == Some(hash(Text(rows[n].prev), rows[n].content))
            && (n > 0 ==> Some(Text(rows[n].prev)) == rows[n - 1].hash)
  {
  }

  lemma {:induction false} ScanClean<C(!new)>(rows: seq<Row<C>>, hash: Digest<C>)
    requires IsDigest(hash)
    ensures Clean(Scan(rows, hash)) <==> Chained(rows, hash)
    ensures Clean(Scan(rows, hash)) <==> Scan(rows, hash).firstBroken == None
    ensures Scan(rows, hash).checked == |rows|
  {
    if rows != [] {
      var n := |rows| - 1;
      ScanClean(rows[..n], hash);
      ChainedFront(rows, hash);
      assert hash(Text(rows[n].prev), rows[n].content) != "";
      assert n > 0 && Chained(rows[..n], hash) ==> rows[..n][n - 1].hash != None;
    }
  }

  predicate BadAt<C(==)>(rows: seq<Row<C>>, i: nat, hash: Digest<C>)
    requires i < |rows|
  {
    BadHash(rows[i], hash)
  }

  ghost predicate SomeBad<C>(rows: seq<Row<C>>, from: nat, hash: Digest<C>) {
    exists i: nat :: from <= i < |rows| && BadAt(rows, i, hash)
  }

  ghost predicate SomeBroken<C>(rows: seq<Row<C>>, from: nat) {
    exists i: nat :: from <= i < |rows| && BrokenLink(rows, i)
  }

  lemma SomeLess<C>(rows: seq<Row<C>>, hash: Digest<C>)
    requires rows != []
    ensures var n := |rows| - 1;
            && (SomeBad(rows, 0, hash) <==> SomeBad(rows[..n], 0, hash) || BadHash(rows[n], hash))
            && (SomeBroken(rows, 0) <==> SomeBroken(rows[..n], 0) || BrokenLink(rows, n))
  {
    var n := |rows| - 1;
    assert forall i: nat :: i < n ==> BadAt(rows[..n], i, hash) == BadAt(rows, i, hash);
    assert forall i: nat :: i < n ==> BrokenLink(rows[..n], i) == BrokenLink(rows, i);
    assert BadAt(rows, n, hash) == BadHash(rows[n], hash);
    assert SomeBad(rows[..n], 0, hash) ==> exists i: nat :: i < n && BadAt(rows, i, hash);
    assert SomeBroken(rows[..n], 0) ==> exists i: nat :: i < n && BrokenLink(rows, i);
  }

  /** A scan reports a bad hash, or a broken link, exactly when some row has one. */
  lemma {:induction false} ScanReports<C>(rows: seq<Row<C>>, hash: Digest<C>)
    ensures Scan(rows, hash).checked == |rows|
    ensures Scan(rows, hash).bad > 0 <==> SomeBad(rows, 0, hash)
    ensures Scan(rows, hash).broken > 0 <==> SomeBroken(rows, 0)
  {
    if rows != [] {
      ScanReports(rows[..|rows| - 1], hash);
      SomeLess(rows, hash);
    }
  }

  predicate Faulty<C(==)>(rows: seq<Row<C>>, i: nat, hash: Digest<C>)
    requires i < |rows|
  {
    BadHash(rows[i], hash) || BrokenLink(rows, i)
  }

  lemma FaultyFront<C>(rows: seq<Row<C>>, n: nat, hash: Digest<C>, h: nat)
    requires h < n <= |rows|
    ensures Faulty(rows[..n], h, hash) == Faulty(rows, h, hash)
  {
  }

  /** And the id it reports first is that of the first row with either. */
  lemma {:induction false} FirstIsReported<C>(rows: seq<Row<C>>, hash: Digest<C>, i: nat)
    requires i < |rows| && Faulty(rows, i, hash) && forall h: nat :: h < i ==> !Faulty(rows, h, hash)
    ensures Scan(rows, hash).firstBroken == Some(rows[i].id)
    decreases |rows|
  {
    var n := |rows| - 1;
    forall h: nat | h < i && h < n ensures !Faulty(rows[..n], h, hash) {
      FaultyFront(rows, n, hash, h);
    }
    if i < n {
      FaultyFront(rows, n, hash, i);
      FirstIsReported(rows[..n], hash, i);
    } else {
      NoneIsReported(rows[..n], hash);
    }
  }

  lemma {:induction false} NoneIsReported<C>(rows: seq<Row<C>>, hash: Digest<C>)
    requires forall h: nat :: h < |rows| ==> !Faulty(rows, h, hash)
    ensures Scan(rows, hash).firstBroken == None
  {
    if rows != [] {
      var n := |rows| - 1;
      forall h: nat | h < n ensures !Faulty(rows[..n], h, hash) {
        FaultyFront(rows, n, hash, h);
      }
      assert !Faulty(rows, n, hash);
      NoneIsReported(rows[..n], hash);
    }
  }

  lemma BadInSuffix<C>(log: seq<Row<C>>, k: nat, hash: Digest<C>)
    requires k <= |log|
    ensures SomeBad(log[k..], 0, hash) <==> SomeBad(log, k, hash)
  {
    if SomeBad(log, k, hash) {
      var i: nat :| k <= i < |log| && BadAt(log, i, hash);
      assert BadAt(log[k..], i - k, hash);
    }
    if SomeBad(log[k..], 0, hash) {
      var i: nat :| i < |log| - k && BadAt(log[k..], i, hash);
      assert BadAt(log, k + i, hash);
    }
  }

  lemma BrokenInSuffix<C>(log: seq<Row<C>>, k: nat)
    requires k <= |log|
    ensures SomeBroken(log[k..], 0) <==> SomeBroken(log, k + 1)
  {
    if SomeBroken(log, k + 1) {
      var i: nat :| k + 1 <= i < |log| && BrokenLink(log, i);
      assert BrokenLink(log[k..], i - k);
    }
    if SomeBroken(log[k..], 0) {
      var i: nat :| i < |log| - k && BrokenLink(log[k..], i);
      assert BrokenLink(log, k + i);
    }
  }

  /** The verifier scans the newest `limit` rows: it reports a bad hash or a broken link exactly when one of them
      has one, the link of the oldest of them excepted. */
  lemma NewestAreScanned<C>(log: seq<Row<C>>, limit: nat, hash: Digest<C>)
    ensures var report := Scan(Recent(log, limit), hash);
            var first := if limit < |log| then |log| - limit else 0;
            && report.checked == |log| - first
            && (report.bad > 0 <==> SomeBad(log, first, hash))
            && (report.broken > 0 <==> SomeBroken(log, first + 1))
  {
    var first := if limit < |log| then |log| - limit else 0;
    ScanReports(Recent(log, limit), hash);
    BadInSuffix(log, first, hash);
    BrokenInSuffix(log, first);
    assert Recent(log, limit) == log[first..];
  }

  lemma ChainedSuffix<C>(log: seq<Row<C>>, k: nat, hash: Digest<C>)
    requires Chained(log, hash) && k <= |log|
    ensures Chained(log[k..], hash)
  {
  }

  /** The verifier reports a clean log for every limit exactly when the log is chained; one full scan decides it. */
  lemma CleanExactly<C(!new)>(log: seq<Row<C>>, hash: Digest<C>)
    requires IsDigest(hash)
    ensures (forall limit: nat :: Clean(Scan(Recent(log, limit), hash))) <==> Chained(log, hash)
    ensures Clean(Scan(Recent(log, |log|), hash)) <==> Chained(log, hash)
  {
    ScanClean(log, hash);
    assert Recent(log, |log|) == log;
    if Chained(log, hash) {
      forall limit: nat ensures Clean(Scan(Recent(log, limit), hash)) {
        ChainedSuffix(log, if limit < |log| then |log| - limit else 0, hash);
        ScanClean(Recent(log, limit), hash);
      }
    }
  }

  /** Two chained logs that end in the same hash hold the same rows, as far back as both go. */
  lemma {:induction false} SameEndSameRows<C(!new)>(a: seq<Row<C>>, b: seq<Row<C>>, hash: Digest<C>, k: nat)
    requires IsDigest(hash) && Chained(a, hash) && Chained(b, hash)
    requires a != [] && b != [] && LastHash(a) == LastHash(b)
    requires k < |a| && k < |b|
    ensures var x, y := a[|a| - 1 - k], b[|b| - 1 - k];
            x.content == y.content && Text(x.prev) == Text(y.prev) && x.hash == y.hash
  {
    if k > 0 {
      SameEndSameRows(a, b, hash, k - 1);
      assert Some(Text(a[|a| - k].prev)) == a[|a| - k - 1].hash;
      assert Some(Text(b[|b| - k].prev)) == b[|b| - k - 1].hash;
    }
  }

  lemma NewestAppends<C>(log: seq<Row<C>>, id: int, content: C, hash: Digest<C>)
    requires Newest(log, id)
    ensures Inserted(log, id, content, hash) == Appended(log, id, content, hash)
  {
  }

  lemma InsertChains<C>(log: seq<Row<C>>, id: int, content: C, hash: Digest<C>)
    requires Chained(log, hash) && Newest(log, id)
    ensures Chained(Inserted(log, id, content, hash), hash)
  {
    NewestAppends(log, id, content, hash);
  }

  // ---- backfill ----

  lemma {:induction false} FillNothing<C>(log: seq<Row<C>>, prev: Option<string>, hash: Digest<C>)
    requires forall i :: 0 <= i < |log| ==> log[i].hash != None
    ensures Filled(log, prev, hash) == (log, prev)
  {
    if log != [] {
      FillNothing(log[..|log| - 1], prev, hash);
      assert log == log[..|log| - 1] + [log[|log| - 1]];
    }
  }

  lemma {:induction false} FilledRows<C>(log: seq<Row<C>>, prev: Option<string>, hash: Digest<C>)
    ensures forall i :: 0 <= i < |log| ==> Filled(log, prev, hash).0[i].hash != None
    ensures forall i :: 0 <= i < |log| && log[i].hash != None ==> Filled(log, prev, hash).0[i] == log[i]
  {
    if log != [] {
      FilledRows(log[..|log| - 1], prev, hash);
    }
  }

  /** A backfill keeps every row's id and content, and leaves the rows that have a hash as they are. */
  lemma BackfillKeepsRows<C>(log: seq<Row<C>>, hash: Digest<C>)
    ensures |Backfilled(log, hash)| == |log|
    ensures forall i :: 0 <= i < |log| ==>
              Backfilled(log, hash)[i].id == log[i].id && Backfilled(log, hash)[i].content == log[i].content
              && Backfilled(log, hash)[i].hash != None && (log[i].hash != None ==> Backfilled(log, hash)[i] == log[i])
  {
    FilledRows(log, LastKnown(log), hash);
    FilledIds(log, LastKnown(log), hash);
  }

  lemma {:induction false} FilledIds<C>(log: seq<Row<C>>, prev: Option<string>, hash: Digest<C>)
    ensures forall i :: 0 <= i < |log| ==>
              Filled(log, prev, hash).0[i].id == log[i].id && Filled(log, prev, hash).0[i].content == log[i].content
  {
    if log != [] {
      FilledIds(log[..|log| - 1], prev, hash);
    }
  }

  /** Backfilling again changes nothing. */
  lemma BackfillTwice<C>(log: seq<Row<C>>, hash: Digest<C>)
    ensures Backfilled(Backfilled(log, hash), hash) == Backfilled(log, hash)
  {
    FilledRows(log, LastKnown(log), hash);
    FillNothing(Backfilled(log, hash), LastKnown(Backfilled(log, hash)), hash);
  }

  /** The log the trigger would have built from the same rows, inserted one at a time in id order. */
  function Rebuilt<C>(log: seq<Row<C>>, rows: seq<Row<C>>, hash: Digest<C>): (r: seq<Row<C>>)
    ensures |r| == |log| + |rows|
  {
    if rows == [] then log
    else
      var last := rows[|rows| - 1];
      Appended(Rebuilt(log, rows[..|rows| - 1], hash), last.id, last.content, hash)
  }

  ghost predicate Unhashed<C>(rows: seq<Row<C>>) {
    forall i :: 0 <= i < |rows| ==> rows[i].hash == None
  }

  lemma {:induction false} LastKnownOf<C>(log: seq<Row<C>>, rows: seq<Row<C>>, hash: Digest<C>)
    requires Chained(log, hash) && Unhashed(rows)
    ensures LastKnown(log + rows) == LastHash(log)
  {
    if rows == [] {
      assert log + rows == log;
    } else {
      assert (log + rows)[..|log + rows| - 1] == log + rows[..|rows| - 1];
      LastKnownOf(log, rows[..|rows| - 1], hash);
    }
  }

  lemma {:induction false} FillRebuilds<C>(log: seq<Row<C>>, rows: seq<Row<C>>, hash: Digest<C>)
    requires Chained(log, hash) && Unhashed(rows)
    ensures Filled(log + rows, LastHash(log), hash) == (Rebuilt(log, rows, hash), LastHash(Rebuilt(log, rows, hash)))
  {
    if rows == [] {
      assert log + rows == log;
      FillNothing(log, LastHash(log), hash);
    } else {
      assert (log + rows)[..|log + rows| - 1] == log + rows[..|rows| - 1];
      FillRebuilds(log, rows[..|rows| - 1], hash);
    }
  }

  lemma {:induction false} RebuiltChains<C>(log: seq<Row<C>>, rows: seq<Row<C>>, hash: Digest<C>)
    requires Chained(log, hash)
    ensures Chained(Rebuilt(log, rows, hash), hash)
  {
    if rows != [] {
      RebuiltChains(log, rows[..|rows| - 1], hash);
    }
  }

  /** After a chained log, backfilling unhashed rows gives exactly the chain the trigger would have built. */
  lemma BackfillIsTrigger<C>(log: seq<Row<C>>, rows: seq<Row<C>>, hash: Digest<C>)
    requires Chained(log, hash) && Unhashed(rows)
    ensures Backfilled(log + rows, hash) == Rebuilt(log, rows, hash)
    ensures Chained(Backfilled(log + rows, hash), hash)
  {
    LastKnownOf(log, rows, hash);
    FillRebuilds(log, rows, hash);
    RebuiltChains(log, rows, hash);
  }
}
