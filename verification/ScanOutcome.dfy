/** What a whole scan guarantees: done, canceled at any point, or broken off by a listing error. */
module ScanOutcome {
  import opened Prelude
  import opened LibraryScan
  import opened ScanGuarantees

  /** The state after all candidates: what a finished scan hands to its missing pass. */
  function Listed(scan: Scan, rows: seq<Row>): State {
    scan.Progress(rows, |scan.candidates|)
  }

  /** The gone rows whose flag a look at the task row drops. */
  ghost function DroppedRows(scan: Scan, rows: seq<Row>): set<nat> {
    var s := Listed(scan, rows);
    set i: nat | i < |s.rows| && Gone(scan, s.rows[i], s.found) && Dropped(scan, s.rows, i, |s.rows|)
  }

  /** Nothing is dropped without an expiring session, nor in a root of at most 25 rows. */
  lemma NothingDropped(scan: Scan, rows: seq<Row>)
    requires scan.session == WriteThrough ||
             RootRows(scan, Listed(scan, rows).rows, |Listed(scan, rows).rows|) <= 25
    ensures DroppedRows(scan, rows) == {}
  {
  }

  /** What a finished scan does to each row after the candidates. */
  lemma {:induction false} DoneRow(scan: Scan, rows: seq<Row>, i: nat)
    requires scan.Outcomes(rows).1.Done? && i < |Listed(scan, rows).rows|
    ensures var s, after := Listed(scan, rows), scan.Outcomes(rows).0;
            && |after| == |s.rows|
            && after[i] == if Gone(scan, s.rows[i], s.found) && i !in DroppedRows(scan, rows)
                           then Flagged(scan, s.rows[i]) else s.rows[i]
  {
    var s := Listed(scan, rows);
    PassStops(scan, s.rows, s.found, |s.rows|);
    PassFlags(scan, s.rows, s.found, |s.rows|, i);
    RootRowsGrow(scan, s.rows, i, |s.rows|);
  }

  /** The rows of the root that are not missing have exactly the found paths. */
  ghost predicate AgreesWithDisk(scan: Scan, rows: seq<Row>, found: set<Path>) {
    forall i :: 0 <= i < |rows| && rows[i].root == Some(scan.root) ==> (rows[i].missing <==> rows[i].path !in found)
  }

  /** After a scan that is done, every found path has one row, which describes its file and is not
      missing. All other rows of the root are missing if and only if no flag was dropped, that is, if no
      gone row stands last before a look; otherwise all but the dropped ones are. */
  lemma {:induction false} DoneAgreesWithDisk(scan: Scan, rows: seq<Row>)
    requires Unique(rows) && scan.files.Valid() && scan.Outcomes(rows).1.Done?
    ensures var after := scan.Outcomes(rows).0;
            var found := Found(scan, |scan.candidates|);
            && Unique(after)
            && (forall p :: p in found ==> HasRow(after, p))
            && (forall i :: 0 <= i < |after| && after[i].path in found ==> Current(scan, after[i]))
            && (AgreesWithDisk(scan, after, found) <==> DroppedRows(scan, rows) == {})
            && (forall i: nat :: i < |after| && after[i].root == Some(scan.root) && after[i].path !in found ==>
                  (after[i].missing <==> i !in DroppedRows(scan, rows)))
  {
    var s := Listed(scan, rows);
    ProgressHolds(scan, rows, |scan.candidates|);
    ProgressFinds(scan, rows, |scan.candidates|);
    var after, dropped := scan.Outcomes(rows).0, DroppedRows(scan, rows);
    forall i: nat | i < |s.rows|
      ensures |after| == |s.rows|
      ensures after[i] ==
              if Gone(scan, s.rows[i], s.found) && i !in dropped then Flagged(scan, s.rows[i]) else s.rows[i]
    {
      DoneRow(scan, rows, i);
    }
    DoneKeepsPaths(scan, rows);
    forall i | i in dropped
      ensures !AgreesWithDisk(scan, after, s.found)
    {
      assert after[i].root == Some(scan.root) && after[i].path !in s.found && !after[i].missing;
    }
  }

  lemma {:induction false} DoneKeepsPaths(scan: Scan, rows: seq<Row>)
    requires Unique(rows) && scan.files.Valid() && scan.Outcomes(rows).1.Done?
    ensures var s, after := Listed(scan, rows), scan.Outcomes(rows).0;
            && |after| == |s.rows| && Unique(after)
            && (forall i :: 0 <= i < |after| ==> after[i].path == s.rows[i].path && after[i].root == s.rows[i].root)
            && (forall p :: p in s.found ==> HasRow(after, p))
  {
    var s, after := Listed(scan, rows), scan.Outcomes(rows).0;
    ProgressHolds(scan, rows, |scan.candidates|);
    forall i: nat | i < |after|
      ensures after[i].path == s.rows[i].path && after[i].root == s.rows[i].root
    {
      DoneRow(scan, rows, i);
    }
    forall p | p in s.found
      ensures HasRow(after, p)
    {
      var i :| 0 <= i < |s.rows| && s.rows[i].path == p;
      assert after[i].path == p;
    }
  }

  /** Rows are never lost: ids and users' data stay, a row changes path only for a file of the same
      fingerprint when its own is gone, no two rows share a path, and the table grows by exactly the
      imported files. Rows of other roots change only when they now describe a found file. */
  lemma RowsSurvive(scan: Scan, rows: seq<Row>)
    requires Unique(rows) && scan.files.Valid()
    ensures var (after, report) := scan.Outcomes(rows);
            && Unique(after) && |after| >= |rows|
            && (report != EnumerationFailed ==> |after| == |rows| + report.imported)
            && forall i :: 0 <= i < |rows| ==> Survives(scan, rows[i], after[i])
  {
    var n := scan.Handled();
    var s := scan.Progress(rows, n);
    var after := scan.Outcomes(rows).0;
    ProgressHolds(scan, rows, n);
    ProgressFinds(scan, rows, n);
    forall i: nat | i < |rows|
      ensures Survives(scan, rows[i], after[i])
    {
      assert Evolves(scan, rows[i], s.rows[i], s.found);
      if scan.Outcomes(rows).1.Done? {
        PassFlags(scan, s.rows, s.found, |s.rows|, i);
      }
    }
    if scan.Outcomes(rows).1.Done? {
      forall i: nat | i < |after|
        ensures after[i].path == s.rows[i].path
      {
        PassFlags(scan, s.rows, s.found, |s.rows|, i);
      }
    }
  }

  /** Whatever becomes of the scan, each row whose file was found and each imported row is exactly what the
      disk says, and every other row is as before or newly flagged. */
  lemma {:induction false} FoundRowsExactly(scan: Scan, rows: seq<Row>, i: nat)
    requires Unique(rows) && scan.files.Valid() && !scan.Canceled(0) && i < |scan.Outcomes(rows).0|
    ensures var after, found := scan.Outcomes(rows).0, Found(scan, scan.Handled());
            && (i < |rows| && after[i].path in found ==>
                  after[i].path in scan.files.stats && after[i] == AsFound(scan, rows[i], after[i].path))
            && (i >= |rows| ==> Imported(scan, after[i], found))
            && (i < |rows| && after[i].path !in found ==>
                  after[i] == rows[i] || after[i] == rows[i].(missing := true, updatedAt := scan.now))
  {
    var s := scan.Progress(rows, scan.Handled());
    ProgressHolds(scan, rows, scan.Handled());
    ProgressFinds(scan, rows, scan.Handled());
    assert i < |rows| ==> Evolves(scan, rows[i], s.rows[i], s.found);
    assert |rows| <= i < |s.rows| ==> Imported(scan, s.rows[i], s.found);
    if scan.Outcomes(rows).1.Done? {
      DoneRow(scan, rows, i);
    }
  }

  /** The changed rows whose file was found. */
  ghost function FoundChanges(rows: seq<Row>, after: seq<Row>, found: set<Path>): set<nat> {
    set i: nat | i in ChangedRows(rows, after) && i < |after| && after[i].path in found
  }

  /** The reported number of updated rows is the number of rows whose file was found and that changed. */
  lemma {:induction false} UpdatesCounted(scan: Scan, rows: seq<Row>)
    requires Unique(rows) && scan.files.Valid()
    ensures var (after, report) := scan.Outcomes(rows);
            report != EnumerationFailed ==>
              report.updated == |FoundChanges(rows, after, Found(scan, scan.Handled()))|
  {
    var n := scan.Handled();
    var (after, report) := scan.Outcomes(rows);
    if scan.Canceled(0) {
      assert FoundChanges(rows, after, Found(scan, n)) == {};
    } else {
      var s := scan.Progress(rows, n);
      ProgressHolds(scan, rows, n);
      ProgressFinds(scan, rows, n);
      ProgressCounts(scan, rows, n);
      forall i: nat | i < |rows|
        ensures i in ChangedRows(rows, s.rows) <==> i in FoundChanges(rows, after, Found(scan, n))
      {
        assert Evolves(scan, rows[i], s.rows[i], s.found);
        if report.Done? {
          DoneRow(scan, rows, i);
        }
      }
      assert ChangedRows(rows, s.rows) == FoundChanges(rows, after, Found(scan, n));
    }
  }

  /** How a scan ends. It fails when the listing breaks before a request was seen; it is done when no look
      sees a request, down to the last 25th row of the root in the missing pass; and a request that look
      `k` of the loop is the first to see leaves the table after `k - 1` candidates. */
  lemma {:induction false} EndsExactly(scan: Scan, rows: seq<Row>)
    ensures var (after, report) := scan.Outcomes(rows);
            var n := |scan.candidates|;
            && (report == EnumerationFailed <==> scan.broken && (scan.cancel.None? || scan.cancel.value > n))
            && (report.Done? <==>
                  && !scan.broken
                  && (scan.cancel.None? ||
                      (scan.cancel.value > n + 1
                       && RootRows(scan, Listed(scan, rows).rows, |Listed(scan, rows).rows|)
                          <= 25 * (scan.cancel.value - n - 2))))
            && (!report.Done? && scan.cancel.Some? && scan.cancel.value <= n ==>
                  after == scan.Progress(rows, if scan.cancel.value == 0 then 0 else scan.cancel.value - 1).rows)
            && (!report.Done? && (scan.cancel.None? || scan.cancel.value > n) ==> after == Listed(scan, rows).rows)
  {
    var s := Listed(scan, rows);
    if !scan.Canceled(|scan.candidates| + 1) {
      PassStops(scan, s.rows, s.found, |s.rows|);
    }
  }

  ghost predicate Survives(scan: Scan, row: Row, after: Row) {
    && after.userData == row.userData
    && (after.path != row.path ==>
          && !scan.files.Available(row.path) && row.hash.Some?
          && after.path in scan.files.stats && row.hash == scan.files.stats[after.path].hash
          && (row.size == None || row.size == Some(scan.files.stats[after.path].size)))
    && (row.root != Some(scan.root) && after != row ==> after.path in Found(scan, |scan.candidates|))
  }

  /** A scan that is canceled, or whose listing fails, sets no missing flag. */
  lemma InterruptedSetsNoFlag(scan: Scan, rows: seq<Row>)
    requires Unique(rows) && scan.files.Valid() && !scan.Outcomes(rows).1.Done?
    ensures var after := scan.Outcomes(rows).0;
            forall i :: 0 <= i < |after| && after[i].missing ==> i < |rows| && after[i] == rows[i]
  {
    var s := scan.Progress(rows, scan.Handled());
    ProgressHolds(scan, rows, scan.Handled());
    forall i | 0 <= i < |s.rows| && s.rows[i].missing
      ensures i < |rows| && s.rows[i] == rows[i]
    {
      assert i < |rows| ==> Evolves(scan, rows[i], s.rows[i], s.found);
      assert i >= |rows| ==> Imported(scan, s.rows[i], s.found);
    }
  }

  // ---------------------------------------------------------------------------------------------
  // Scanning again
  // ---------------------------------------------------------------------------------------------

  /** Every candidate has a row that describes it. */
  ghost predicate AllCurrent(scan: Scan, rows: seq<Row>, found: set<Path>) {
    forall p :: p in found ==>
      HasRow(rows, p) && forall i :: 0 <= i < |rows| && rows[i].path == p ==> Current(scan, rows[i])
  }

  lemma {:induction false} NothingToDo(scan: Scan, rows: seq<Row>, n: nat)
    requires Unique(rows) && n <= |scan.candidates|
    requires AllCurrent(scan, rows, Found(scan, n))
    ensures scan.Progress(rows, n) == State(rows, Found(scan, n), 0, 0)
  {
    ProgressFinds(scan, rows, n);
    if n == 0 {
    } else {
      assert Found(scan, n - 1) <= Found(scan, n);
      NothingToDo(scan, rows, n - 1);
      var resolved := scan.files.Resolve(scan.rootPath, scan.candidates[n - 1]);
      if resolved.Some? {
        assert resolved.value in Found(scan, n);
        assert HasRow(rows, resolved.value);
        var i := RowAt(rows, resolved.value).value;
        assert Current(scan, rows[i]);
        assert scan.Reconcile(rows, scan.candidates[n - 1]).rows == rows;
      }
    }
  }

  lemma {:induction false} SameRootRows(scan: Scan, again: Scan, rows: seq<Row>, after: seq<Row>, n: nat)
    requires again.root == scan.root && n <= |rows| == |after|
    requires forall i :: 0 <= i < |rows| ==> after[i].root == rows[i].root
    ensures RootRows(again, after, n) == RootRows(scan, rows, n)
  {
    if n == 0 {
    } else {
      SameRootRows(scan, again, rows, after, n - 1);
    }
  }

  /** The gone rows of a second scan are those whose flag the first one dropped, and they are dropped again
      by the same kind of session. */
  lemma {:induction false} DroppedAgain(scan: Scan, again: Scan, rows: seq<Row>, i: nat)
    requires Unique(rows) && scan.files.Valid() && scan.Outcomes(rows).1.Done?
    requires again.root == scan.root && again.session == scan.session && again.cancel.None?
    requires i < |scan.Outcomes(rows).0|
    ensures var after, found := scan.Outcomes(rows).0, Found(scan, |scan.candidates|);
            && (Gone(again, after[i], found) <==> i in DroppedRows(scan, rows))
            && (i in DroppedRows(scan, rows) ==> Dropped(again, after, i, |after|))
  {
    var s, after := Listed(scan, rows), scan.Outcomes(rows).0;
    ProgressFinds(scan, rows, |scan.candidates|);
    DoneKeepsPaths(scan, rows);
    DoneRow(scan, rows, i);
    if i in DroppedRows(scan, rows) {
      SameRootRows(scan, again, s.rows, after, i);
      SameRootRows(scan, again, s.rows, after, |after|);
    }
  }

  /** Scanning the unchanged file system again, in any order and with the same kind of session, imports and
      updates nothing and changes no row; it reports as missing exactly the rows whose flag was dropped,
      again in vain, so it reports nothing at all if and only if none was. */
  lemma {:induction false} SecondScanIdle(scan: Scan, again: Scan, rows: seq<Row>)
    requires Unique(rows) && scan.files.Valid() && scan.Outcomes(rows).1.Done?
    requires again.files == scan.files && again.root == scan.root && again.rootPath == scan.rootPath
    requires again.session == scan.session && again.cancel.None? && !again.broken
    requires Found(again, |again.candidates|) == Found(scan, |scan.candidates|)
    ensures var after := scan.Outcomes(rows).0;
            && again.Outcomes(after) == (after, Done(0, 0, |DroppedRows(scan, rows)|))
            && (again.Outcomes(after).1 == Done(0, 0, 0) <==> DroppedRows(scan, rows) == {})
  {
    DoneAgreesWithDisk(scan, rows);
    var after, found := scan.Outcomes(rows).0, Found(scan, |scan.candidates|);
    SecondProgress(scan, again, rows);
    SecondPass(scan, again, rows);
    PassStops(again, after, found, |after|);
  }

  lemma {:induction false} SecondProgress(scan: Scan, again: Scan, rows: seq<Row>)
    requires Unique(rows) && scan.files.Valid() && scan.Outcomes(rows).1.Done?
    requires again.files == scan.files && again.root == scan.root && again.rootPath == scan.rootPath
    requires Found(again, |again.candidates|) == Found(scan, |scan.candidates|)
    ensures var after := scan.Outcomes(rows).0;
            again.Progress(after, |again.candidates|) == State(after, Found(scan, |scan.candidates|), 0, 0)
  {
    DoneAgreesWithDisk(scan, rows);
    assert AllCurrent(again, scan.Outcomes(rows).0, Found(scan, |scan.candidates|));
    NothingToDo(again, scan.Outcomes(rows).0, |again.candidates|);
  }

  lemma {:induction false} SecondPass(scan: Scan, again: Scan, rows: seq<Row>)
    requires Unique(rows) && scan.files.Valid() && scan.Outcomes(rows).1.Done?
    requires again.root == scan.root && again.session == scan.session && again.cancel.None?
    ensures var after, found := scan.Outcomes(rows).0, Found(scan, |scan.candidates|);
            var pass := again.MissingPass(after, found, |after|);
            pass.rows == after && pass.missing == |DroppedRows(scan, rows)|
  {
    var after, found := scan.Outcomes(rows).0, Found(scan, |scan.candidates|);
    DoneKeepsPaths(scan, rows);
    forall i: nat | i < |after|
      ensures again.MissingPass(after, found, |after|).rows[i] == after[i]
      ensures i in GoneRows(again, after, found, |after|) <==> i in DroppedRows(scan, rows)
    {
      PassFlags(again, after, found, |after|, i);
      DroppedAgain(scan, again, rows, i);
    }
    PassCounts(again, after, found, |after|);
    assert GoneRows(again, after, found, |after|) == DroppedRows(scan, rows);
  }

  // ---------------------------------------------------------------------------------------------
  // The reported number of missing files
  // ---------------------------------------------------------------------------------------------

  /** A finished scan reports the rows that became missing and those whose flag was dropped. */
  lemma {:induction false} DoneCountsMissing(scan: Scan, rows: seq<Row>)
    requires Unique(rows) && scan.files.Valid() && scan.Outcomes(rows).1.Done?
    ensures var (after, report) := scan.Outcomes(rows);
            report.missing == |NewlyMissing(rows, after)| + |DroppedRows(scan, rows)|
  {
    var s, after := Listed(scan, rows), scan.Outcomes(rows).0;
    PassCounts(scan, s.rows, s.found, |s.rows|);
    var gone, dropped := GoneRows(scan, s.rows, s.found, |s.rows|), DroppedRows(scan, rows);
    forall i: nat | i < |s.rows|
      ensures i in gone <==> i in NewlyMissing(rows, after) + dropped
      ensures i in dropped ==> i !in NewlyMissing(rows, after)
    {
      NewlyMissingRow(scan, rows, i);
    }
    DoneKeepsPaths(scan, rows);
    assert gone == NewlyMissing(rows, after) + dropped;
  }

  ghost function NewlyMissing(rows: seq<Row>, after: seq<Row>): set<nat> {
    set i: nat | i < |rows| && i < |after| && after[i].missing && !rows[i].missing
  }

  lemma {:induction false} NewlyMissingRow(scan: Scan, rows: seq<Row>, i: nat)
    requires Unique(rows) && scan.files.Valid() && scan.Outcomes(rows).1.Done?
    requires i < |Listed(scan, rows).rows|
    ensures var s, after := Listed(scan, rows), scan.Outcomes(rows).0;
            && (Gone(scan, s.rows[i], s.found) ==> Reached(scan, s.rows, i))
            && (Gone(scan, s.rows[i], s.found) <==> i in NewlyMissing(rows, after) || i in DroppedRows(scan, rows))
            && !(i in NewlyMissing(rows, after) && i in DroppedRows(scan, rows))
  {
    var s, n := Listed(scan, rows), |scan.candidates|;
    ProgressHolds(scan, rows, n);
    DoneRow(scan, rows, i);
    PassStops(scan, s.rows, s.found, |s.rows|);
    RootRowsGrow(scan, s.rows, i, |s.rows|);
    assert i < |rows| ==> Evolves(scan, rows[i], s.rows[i], s.found);
    assert i >= |rows| ==> Imported(scan, s.rows[i], s.found);
  }

  /** A scan canceled in its missing pass still reports the flags it rolled back: it counts the gone rows that
      the pass reached. A scan canceled earlier reached none. */
  lemma CanceledCount(scan: Scan, rows: seq<Row>)
    requires Unique(rows) && scan.files.Valid() && scan.Outcomes(rows).1.CanceledScan?
    ensures var s := scan.Progress(rows, scan.Handled());
            && scan.Outcomes(rows).1.missing == |GoneRows(scan, s.rows, s.found, |s.rows|)|
            && (scan.cancel.Some? && scan.cancel.value <= |scan.candidates| + 1 ==> scan.Outcomes(rows).1.missing == 0)
  {
    var s := scan.Progress(rows, scan.Handled());
    var gone := GoneRows(scan, s.rows, s.found, |s.rows|);
    if scan.Canceled(|scan.candidates| + 1) {
      assert gone == {};
    } else {
      PassCounts(scan, s.rows, s.found, |s.rows|);
    }
  }

  /** `n` rows of root 0 whose files are gone. */
  function Shelf(n: nat): (rows: seq<Row>)
    ensures |rows| == n
    ensures forall i :: 0 <= i < n ==> rows[i] == Row(seq(i, _ => "x"), Some(0), None, None, None, false, 0, "")
  {
    if n == 0 then [] else
    Shelf(n - 1) + [Row(seq(n - 1, _ => "x"), Some(0), None, None, None, false, 0, "")]
  }

  lemma {:induction false} ShelfRows(scan: Scan, n: nat, m: nat)
    requires scan.root == 0 && n <= m
    ensures RootRows(scan, Shelf(m), n) == n
  {
    if n == 0 {
    } else {
      ShelfRows(scan, n - 1, m);
    }
  }

  /** Such a scan: more than 25 files gone, canceled at the second look of the missing pass. */
  lemma CanceledScanMiscounts(n: nat)
    requires n > 25
    ensures var scan := Scan(Files(map[], map[]), 0, [], [], false, Some(3), Expiring, 1);
            && Unique(Shelf(n))
            && scan.Outcomes(Shelf(n)).0 == Shelf(n)
            && scan.Outcomes(Shelf(n)).1.CanceledScan?
            && scan.Outcomes(Shelf(n)).1.missing != 0
  {
    var scan := Scan(Files(map[], map[]), 0, [], [], false, Some(3), Expiring, 1);
    var rows := Shelf(n);
    ShelfRows(scan, n, n);
    ShelfUnique(n);
    PassStops(scan, rows, {}, n);
    CanceledCount(scan, rows);
    assert scan.Progress(rows, 0) == State(rows, {}, 0, 0);
    assert 0 in GoneRows(scan, rows, {}, n);
  }

  /** A scan run as a task over a root of more than 25 gone files: it ends as done, reports all of them,
      and leaves the 25th row as if its file were there. */
  lemma FlagIsDropped(n: nat)
    requires n > 25
    ensures var scan := Scan(Files(map[], map[]), 0, [], [], false, None, Expiring, 1);
            var (after, report) := scan.Outcomes(Shelf(n));
            && Unique(Shelf(n)) && report.Done?
            && |after| == n && !after[24].missing && !AgreesWithDisk(scan, after, {})
  {
    var scan := Scan(Files(map[], map[]), 0, [], [], false, None, Expiring, 1);
    var rows := Shelf(n);
    ShelfUnique(n);
    ShelfRows(scan, 24, n);
    ShelfRows(scan, n, n);
    assert scan.Progress(rows, 0) == State(rows, {}, 0, 0);
    PassStops(scan, rows, {}, n);
    assert 24 in DroppedRows(scan, rows);
    DoneRow(scan, rows, 24);
    DoneAgreesWithDisk(scan, rows);
  }

  lemma {:induction false} ShelfUnique(n: nat)
    ensures Unique(Shelf(n))
  {
    var rows := Shelf(n);
    forall i, j | 0 <= i < n && 0 <= j < n && rows[i].path == rows[j].path
      ensures i == j
    {
      assert |rows[i].path| == i && |rows[j].path| == j;
    }
  }
}
