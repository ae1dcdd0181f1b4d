/** What a scan guarantees about the table it leaves. */
module ScanGuarantees {
  import opened Prelude
  import opened LibraryScan

  /** The resolved paths of the first `n` candidates. */
  ghost function Found(scan: Scan, n: nat): set<Path>
    requires n <= |scan.candidates|
  {
    set k | 0 <= k < n && scan.files.Resolve(scan.rootPath, scan.candidates[k]).Some?
      :: scan.files.Resolve(scan.rootPath, scan.candidates[k]).value
  }

  // ---------------------------------------------------------------------------------------------
  // Moved files
  // ---------------------------------------------------------------------------------------------

  /** Row `a`, number `i`, is at least as good a choice as row `b`, number `j`: a row of the scanned root
      beats others, then a missing row does, then the one changed longest ago, then the earlier one. */
  predicate AsGood(scan: Scan, a: Row, i: nat, b: Row, j: nat) {
    var here := Some(scan.root);
    && (b.root == here ==> a.root == here)
    && ((a.root == here <==> b.root == here) && b.missing ==> a.missing)
    && ((a.root == here <==> b.root == here) && a.missing == b.missing ==> a.updatedAt <= b.updatedAt)
    && ((a.root == here <==> b.root == here) && a.missing == b.missing && a.updatedAt == b.updatedAt ==> i <= j)
  }

  /** The row taken for a moved file is the best choice among all that may be it; none is taken exactly
      when there is no such row. */
  lemma {:induction false} BestMovedIsBest(scan: Scan, rows: seq<Row>, p: Path)
    requires p in scan.files.stats
    ensures var best := scan.BestMoved(rows, p);
            && (best.None? ==> forall i :: 0 <= i < |rows| ==> !scan.MayBeMoved(rows[i], p))
            && (best.Some? ==> forall i: nat :: i < |rows| && scan.MayBeMoved(rows[i], p) ==>
                  AsGood(scan, rows[best.value], best.value, rows[i], i))
  {
    if rows == [] {
    } else {
      var front := rows[..|rows| - 1];
      BestMovedIsBest(scan, front, p);
      assert forall i :: 0 <= i < |front| ==> front[i] == rows[i];
    }
  }

  // ---------------------------------------------------------------------------------------------
  // One candidate
  // ---------------------------------------------------------------------------------------------

  /** The row describes the file at its path as it is on disk, in the scanned root. */
  predicate Current(scan: Scan, row: Row) {
    && row.path in scan.files.stats
    && row.root == Some(scan.root) && !row.missing
    && !scan.Changed(row, scan.files.stats[row.path])
    && (row.hash.None? ==> scan.files.stats[row.path].hash.None?)
  }

  /** Row `a` once its file is found at `p`: size and time are those on disk; the fingerprint is taken anew
      when the file moved, its size or time changed, or there was none, and kept otherwise; the row belongs
      to the scanned root and is not missing; its time stamp is that of the scan if anything changed. */
  function AsFound(scan: Scan, a: Row, p: Path): Row
    requires p in scan.files.stats
  {
    var stat := scan.files.stats[p];
    var anew := a.path != p || a.size != Some(stat.size) || a.mtime != Some(stat.mtime) || a.hash == None;
    var b := Row(p, Some(scan.root), Some(stat.size), Some(stat.mtime), if anew then stat.hash else a.hash,
                 false, a.updatedAt, a.userData);
    if b == a then a else b.(updatedAt := scan.now)
  }

  /** What may become of a row: its file is found, or nothing; users' data stays with it; it changes path
      only for a file of the same fingerprint and a compatible size, when its own file is gone. */
  predicate Evolves(scan: Scan, a: Row, b: Row, found: set<Path>) {
    && b.userData == a.userData
    && (b == a || (b.path in found && Current(scan, b)))
    && (b.path in found ==> b.path in scan.files.stats && b == AsFound(scan, a, b.path))
    && (b.path != a.path ==>
          && !scan.files.Available(a.path) && a.hash.Some?
          && b.path in scan.files.stats && a.hash == scan.files.stats[b.path].hash
          && (a.size == None || a.size == Some(scan.files.stats[b.path].size)))
  }

  predicate Imported(scan: Scan, row: Row, found: set<Path>) {
    && row.path in found && Current(scan, row)
    && row.path in scan.files.stats
    && var stat := scan.files.stats[row.path];
    && row == Row(row.path, Some(scan.root), Some(stat.size), Some(stat.mtime), stat.hash, false, scan.now, "")
  }

  ghost predicate HasRow(rows: seq<Row>, p: Path) {
    exists i :: 0 <= i < |rows| && rows[i].path == p
  }

  /** The rows that differ from before. */
  ghost function ChangedRows(rows: seq<Row>, after: seq<Row>): set<nat> {
    set i: nat | i < |rows| && i < |after| && after[i] != rows[i]
  }

  /** One candidate changes one row at most, or adds one; afterwards a row describes its file. */
  ghost predicate Stepped(scan: Scan, rows: seq<Row>, r: Outcome, p: Path) {
    && p in scan.files.stats && |r.rows| == |rows| + r.imported
    && (forall i :: 0 <= i < |rows| ==> Evolves(scan, rows[i], r.rows[i], {p}))
    && (forall i :: |rows| <= i < |r.rows| ==> Imported(scan, r.rows[i], {p}))
    && (forall i :: 0 <= i < |r.rows| && r.rows[i].path == p ==> Current(scan, r.rows[i]))
    && HasRow(r.rows, p)
    && r.updated == |ChangedRows(rows, r.rows)|
  }

  lemma {:induction false} ReconcileStep(scan: Scan, rows: seq<Row>, candidate: Path)
    requires Unique(rows)
    ensures var r := scan.Reconcile(rows, candidate);
            && Unique(r.rows)
            && (r.resolved.None? ==> r.rows == rows && r.imported == 0 && r.updated == 0)
            && (r.resolved.Some? ==> Stepped(scan, rows, r, r.resolved.value))
  {
    UniqueKept(scan, rows, candidate);
    var r := scan.Reconcile(rows, candidate);
    if r.resolved.Some? {
      var p := r.resolved.value;
      var i := if RowAt(rows, p).Some? then RowAt(rows, p).value
               else if scan.BestMoved(rows, p).Some? then scan.BestMoved(rows, p).value
               else |rows|;
      assert r.rows[i].path == p && Current(scan, r.rows[i]);
      assert ChangedRows(rows, r.rows) == if i < |rows| && r.rows[i] != rows[i] then {i} else {};
    }
  }

  // ---------------------------------------------------------------------------------------------
  // All candidates
  // ---------------------------------------------------------------------------------------------

  ghost predicate Progressed(scan: Scan, rows: seq<Row>, s: State) {
    && Unique(s.rows) && |s.rows| == |rows| + s.imported
    && (forall i :: 0 <= i < |rows| ==> Evolves(scan, rows[i], s.rows[i], s.found))
    && (forall i :: |rows| <= i < |s.rows| ==> Imported(scan, s.rows[i], s.found))
    && (forall i :: 0 <= i < |s.rows| && s.rows[i].path in s.found ==> Current(scan, s.rows[i]))
    && (forall p :: p in s.found ==> p in scan.files.stats && HasRow(s.rows, p))
  }

  lemma EvolvesTwice(scan: Scan, a: Row, b: Row, c: Row, found: set<Path>, p: Path)
    requires scan.files.Valid()
    requires Evolves(scan, a, b, found) && Evolves(scan, b, c, {p})
    ensures Evolves(scan, a, c, found + {p})
    ensures b.path in found && Current(scan, b) ==> c.path == b.path
  {
  }

  lemma {:induction false} ProgressHolds(scan: Scan, rows: seq<Row>, n: nat)
    requires Unique(rows) && scan.files.Valid() && n <= |scan.candidates|
    ensures Progressed(scan, rows, scan.Progress(rows, n))
  {
    if n == 0 {
    } else {
      ProgressHolds(scan, rows, n - 1);
      var s := scan.Progress(rows, n - 1);
      ReconcileStep(scan, s.rows, scan.candidates[n - 1]);
      var r := scan.Reconcile(s.rows, scan.candidates[n - 1]);
      if r.resolved.Some? {
        ProgressStep(scan, rows, s, r, r.resolved.value);
      }
    }
  }

  lemma {:induction false} ProgressFinds(scan: Scan, rows: seq<Row>, n: nat)
    requires n <= |scan.candidates|
    ensures scan.Progress(rows, n).found == Found(scan, n)
  {
    if n == 0 {
    } else {
      ProgressFinds(scan, rows, n - 1);
    }
  }

  lemma {:induction false} ProgressStep(scan: Scan, rows: seq<Row>, s: State, r: Outcome, p: Path)
    requires scan.files.Valid() && Progressed(scan, rows, s)
    requires Unique(r.rows) && Stepped(scan, s.rows, r, p)
    ensures Progressed(scan, rows, State(r.rows, s.found + {p}, s.imported + r.imported, s.updated + r.updated))
  {
    forall i | 0 <= i < |rows|
      ensures Evolves(scan, rows[i], r.rows[i], s.found + {p})
    {
      EvolvesTwice(scan, rows[i], s.rows[i], r.rows[i], s.found, p);
    }
    StepImports(scan, rows, s, r, p);
    StepKeepsCurrent(scan, rows, s, r, p);
  }

  lemma {:induction false} StepImports(scan: Scan, rows: seq<Row>, s: State, r: Outcome, p: Path)
    requires scan.files.Valid() && Progressed(scan, rows, s) && Stepped(scan, s.rows, r, p)
    ensures forall i :: |rows| <= i < |r.rows| ==> Imported(scan, r.rows[i], s.found + {p})
  {
    forall i | |rows| <= i < |r.rows|
      ensures Imported(scan, r.rows[i], s.found + {p})
    {
      if i < |s.rows| {
        assert Imported(scan, s.rows[i], s.found) && Evolves(scan, s.rows[i], r.rows[i], {p});
      } else {
        assert Imported(scan, r.rows[i], {p});
      }
    }
  }

  lemma {:induction false} StepKeepsCurrent(scan: Scan, rows: seq<Row>, s: State, r: Outcome, p: Path)
    requires scan.files.Valid() && Progressed(scan, rows, s) && Stepped(scan, s.rows, r, p)
    ensures forall i :: 0 <= i < |r.rows| && r.rows[i].path in s.found + {p} ==> Current(scan, r.rows[i])
    ensures forall q :: q in s.found + {p} ==> q in scan.files.stats && HasRow(r.rows, q)
  {
    forall i | 0 <= i < |r.rows| && r.rows[i].path in s.found + {p}
      ensures Current(scan, r.rows[i])
    {
      if i < |s.rows| {
        assert Evolves(scan, s.rows[i], r.rows[i], {p});
      } else {
        assert Imported(scan, r.rows[i], {p});
      }
    }
    forall q | q in s.found
      ensures HasRow(r.rows, q)
    {
      var i :| 0 <= i < |s.rows| && s.rows[i].path == q;
      assert Evolves(scan, s.rows[i], r.rows[i], {p});
      assert r.rows[i].path == q;
    }
  }

  /** A row whose file was found stays as it is. */
  lemma {:induction false} FoundRowStays(scan: Scan, rows: seq<Row>, s: State, r: Outcome, p: Path, i: nat)
    requires scan.files.Valid() && Progressed(scan, rows, s) && Stepped(scan, s.rows, r, p)
    requires i < |s.rows| && s.rows[i].path in s.found
    ensures r.rows[i] == s.rows[i]
  {
    assert Current(scan, s.rows[i]) && Evolves(scan, s.rows[i], r.rows[i], {p});
    assert i < |rows| ==> Evolves(scan, rows[i], s.rows[i], s.found);
    assert i >= |rows| ==> Imported(scan, s.rows[i], s.found);
  }

  /** The update counter is the number of rows that the candidates changed. */
  lemma {:induction false} ProgressCounts(scan: Scan, rows: seq<Row>, n: nat)
    requires Unique(rows) && scan.files.Valid() && n <= |scan.candidates|
    ensures scan.Progress(rows, n).updated == |ChangedRows(rows, scan.Progress(rows, n).rows)|
  {
    if n == 0 {
      assert ChangedRows(rows, rows) == {};
    } else {
      ProgressCounts(scan, rows, n - 1);
      ProgressHolds(scan, rows, n - 1);
      var s := scan.Progress(rows, n - 1);
      ReconcileStep(scan, s.rows, scan.candidates[n - 1]);
      var r := scan.Reconcile(s.rows, scan.candidates[n - 1]);
      if r.resolved.Some? {
        CountStep(scan, rows, s, r, r.resolved.value);
      }
    }
  }

  lemma {:induction false} CountStep(scan: Scan, rows: seq<Row>, s: State, r: Outcome, p: Path)
    requires scan.files.Valid() && Progressed(scan, rows, s) && Stepped(scan, s.rows, r, p)
    ensures |ChangedRows(rows, r.rows)| == |ChangedRows(rows, s.rows)| + r.updated
  {
    var before, step, after := ChangedRows(rows, s.rows), ChangedRows(s.rows, r.rows), ChangedRows(rows, r.rows);
    forall i: nat | i < |s.rows|
      ensures i in after <==> i in before + step
      ensures !(i in before && i in step)
    {
      assert i < |rows| ==> Evolves(scan, rows[i], s.rows[i], s.found);
      assert i >= |rows| ==> Imported(scan, s.rows[i], s.found);
      if s.rows[i].path in s.found {
        FoundRowStays(scan, rows, s, r, p, i);
      }
    }
    assert after == before + step;
  }

  /** The found paths are those of files under the root that are candidates themselves or that a candidate
      links to. */
  lemma FoundExactly(scan: Scan, n: nat, p: Path)
    requires scan.files.Valid() && n <= |scan.candidates|
    ensures p in Found(scan, n) <==>
            p in scan.files.stats && |scan.rootPath| <= |p| && p[..|scan.rootPath|] == scan.rootPath
            && exists k :: 0 <= k < n && LeadsTo(scan.files, scan.candidates[k], p)
  {
    if p in scan.files.stats && |scan.rootPath| <= |p| && p[..|scan.rootPath|] == scan.rootPath {
      if k :| 0 <= k < n && LeadsTo(scan.files, scan.candidates[k], p) {
        assert scan.files.Resolve(scan.rootPath, scan.candidates[k]) == Some(p);
      }
    }
  }

  predicate LeadsTo(files: Files, candidate: Path, p: Path) {
    candidate == p || (candidate in files.links && files.links[candidate] == p)
  }

  /** A file is imported exactly when no row has its path and no row may be the same file moved. */
  lemma ImportedExactly(scan: Scan, rows: seq<Row>, candidate: Path)
    requires scan.files.Valid()
    ensures var r := scan.Reconcile(rows, candidate);
            r.imported == 1 <==>
            && r.resolved.Some? && !HasRow(rows, r.resolved.value)
            && forall i :: 0 <= i < |rows| ==> !SameFileGone(scan, rows[i], r.resolved.value)
  {
    var r := scan.Reconcile(rows, candidate);
    if r.resolved.Some? {
      BestMovedIsBest(scan, rows, r.resolved.value);
      assert forall i :: 0 <= i < |rows| ==>
        (scan.MayBeMoved(rows[i], r.resolved.value) <==> SameFileGone(scan, rows[i], r.resolved.value));
    }
  }

  /** The row has the fingerprint of the file at `p`, no other size, and its own file is gone. */
  predicate SameFileGone(scan: Scan, row: Row, p: Path) {
    && p in scan.files.stats
    && row.hash.Some? && row.hash == scan.files.stats[p].hash
    && (row.size == None || row.size == Some(scan.files.stats[p].size))
    && row.path !in scan.files.stats
    && (row.path in scan.files.links ==> scan.files.links[row.path] !in scan.files.stats)
  }

  /** A row is claimed by one found file at most: once it describes a found file, its path stays. */
  lemma {:induction false} ClaimedOnce(scan: Scan, rows: seq<Row>, n: nat, m: nat, i: nat)
    requires Unique(rows) && scan.files.Valid() && n <= m <= |scan.candidates| && i < |rows|
    ensures var before, after := scan.Progress(rows, n).rows, scan.Progress(rows, m).rows;
            && i < |before| && i < |after|
            && (before[i].path != rows[i].path || before[i].path in Found(scan, n) ==> after[i].path == before[i].path)
  {
    ProgressHolds(scan, rows, n);
    ProgressFinds(scan, rows, n);
    if m == n {
    } else {
      ClaimedOnce(scan, rows, n, m - 1, i);
      ProgressHolds(scan, rows, m - 1);
      var s := scan.Progress(rows, m - 1);
      ReconcileStep(scan, s.rows, scan.candidates[m - 1]);
      assert Evolves(scan, rows[i], scan.Progress(rows, n).rows[i], Found(scan, n));
      assert scan.Progress(rows, n).rows[i].path in Found(scan, n) ==> Current(scan, scan.Progress(rows, n).rows[i]);
    }
  }

  // ---------------------------------------------------------------------------------------------
  // The missing pass
  // ---------------------------------------------------------------------------------------------

  /** How many of the first `n` rows belong to the scanned root. */
  function RootRows(scan: Scan, rows: seq<Row>, n: nat): nat
    requires n <= |rows|
  {
    if n == 0 then 0
    else RootRows(scan, rows, n - 1) + if rows[n - 1].root == Some(scan.root) then 1 else 0
  }

  predicate Gone(scan: Scan, row: Row, found: set<Path>) {
    row.root == Some(scan.root) && row.path !in found && !row.missing
  }

  /** The pass reaches row `i` before the look that sees a cancel request. */
  predicate Reached(scan: Scan, rows: seq<Row>, i: nat)
    requires i <= |rows|
  {
    scan.cancel.None? || RootRows(scan, rows, i) < 25 * (scan.cancel.value - |scan.candidates| - 2)
  }

  function Flagged(scan: Scan, row: Row): Row {
    row.(missing := true, updatedAt := scan.now)
  }

  /** Row `i` is gone and the pass reaches it. */
  predicate Taken(scan: Scan, rows: seq<Row>, found: set<Path>, i: nat)
    requires i < |rows|
  {
    Gone(scan, rows[i], found) && Reached(scan, rows, i)
  }

  /** The gone rows among the first `n` that the pass reaches. */
  ghost function GoneRows(scan: Scan, rows: seq<Row>, found: set<Path>, n: nat): set<nat>
    requires n <= |rows|
  {
    set i: nat | i < n && Taken(scan, rows, found, i)
  }

  lemma EveryTwentyFifth(r: nat, k: int)
    ensures r % 25 == 0 ==> (k <= r / 25 <==> 25 * k <= r)
    ensures r == 25 * k ==> r % 25 == 0
  {
  }

  /** The pass is canceled exactly when it does not reach all rows of the root. */
  lemma {:induction false} PassStops(scan: Scan, rows: seq<Row>, found: set<Path>, n: nat)
    requires n <= |rows| && !scan.Canceled(|scan.candidates| + 1)
    ensures var pass := scan.MissingPass(rows, found, n);
            && (pass.canceled <==>
                  scan.cancel.Some? && RootRows(scan, rows, n) > 25 * (scan.cancel.value - |scan.candidates| - 2))
            && pass.index == (if pass.canceled then 25 * (scan.cancel.value - |scan.candidates| - 2)
                              else RootRows(scan, rows, n))
            && (pass.unsaved.Some? ==> pass.unsaved.value < n)
            && (forall i :: n <= i < |rows| ==> pass.rows[i] == rows[i])
  {
    if n == 0 {
    } else {
      PassStops(scan, rows, found, n - 1);
      var s := scan.MissingPass(rows, found, n - 1);
      if scan.cancel.Some? {
        EveryTwentyFifth(s.index, scan.cancel.value - |scan.candidates| - 2);
      }
    }
  }

  /** The flag of row `i` is dropped at a look: it is the last one set before it. */
  predicate Dropped(scan: Scan, rows: seq<Row>, i: nat, n: nat)
    requires i <= |rows| && n <= |rows|
  {
    && scan.session == Expiring
    && RootRows(scan, rows, i) % 25 == 24 && RootRows(scan, rows, i) + 1 < RootRows(scan, rows, n)
  }

  /** While the pass goes on, the unwritten flag is that of the row of the root just handled. */
  lemma {:induction false} UnsavedIsLast(scan: Scan, rows: seq<Row>, found: set<Path>, n: nat, i: nat)
    requires i < n <= |rows| && !scan.Canceled(|scan.candidates| + 1)
    ensures var pass := scan.MissingPass(rows, found, n);
            !pass.canceled ==>
              (pass.unsaved == Some(i) <==>
                Gone(scan, rows[i], found) && RootRows(scan, rows, i) + 1 == RootRows(scan, rows, n))
  {
    PassStops(scan, rows, found, n - 1);
    PassStops(scan, rows, found, n);
    RootRowsGrow(scan, rows, i, n - 1);
    if i < n - 1 {
      UnsavedIsLast(scan, rows, found, n - 1, i);
    }
  }

  lemma {:induction false} RootRowsGrow(scan: Scan, rows: seq<Row>, i: nat, n: nat)
    requires i <= n <= |rows|
    ensures RootRows(scan, rows, i) <= RootRows(scan, rows, n)
    ensures i < n && rows[i].root == Some(scan.root) ==> RootRows(scan, rows, i) < RootRows(scan, rows, n)
  {
    if i == n {
    } else {
      RootRowsGrow(scan, rows, i, n - 1);
    }
  }

  /** Row `i` after the pass over the first `n` rows. */
  function Passed(scan: Scan, rows: seq<Row>, found: set<Path>, n: nat, i: nat): Row
    requires n <= |rows| && i < |rows|
  {
    if i < n && Gone(scan, rows[i], found) && Reached(scan, rows, i) && !Dropped(scan, rows, i, n)
    then Flagged(scan, rows[i])
    else rows[i]
  }

  /** What handling row `m` does to an earlier row. */
  lemma {:induction false} EarlierRow(scan: Scan, rows: seq<Row>, found: set<Path>, s: Pass, m: nat, n: nat, i: nat)
    requires i < m < n == m + 1 <= |rows| == |s.rows| && s.rows[i] == Passed(scan, rows, found, m, i)
    requires !s.canceled ==>
               && s.index == RootRows(scan, rows, m)
               && (s.unsaved == Some(i) <==> Gone(scan, rows[i], found) && RootRows(scan, rows, i) + 1 == s.index)
    requires s.canceled && Reached(scan, rows, i) ==> RootRows(scan, rows, i) + 1 < RootRows(scan, rows, m)
    requires Gone(scan, rows[i], found) ==> RootRows(scan, rows, i) < RootRows(scan, rows, m)
    requires s.unsaved.Some? ==> s.unsaved.value < m
    ensures scan.PassRow(rows, found, s, m).rows[i] == Passed(scan, rows, found, n, i)
  {
  }

  /** The pass flags the gone rows it reaches, but for those whose flag is dropped, and no others. */
  lemma {:induction false} PassFlags(scan: Scan, rows: seq<Row>, found: set<Path>, n: nat, i: nat)
    requires n <= |rows| && i < |rows| && !scan.Canceled(|scan.candidates| + 1)
    ensures scan.MissingPass(rows, found, n).rows[i] == Passed(scan, rows, found, n, i)
  {
    if n <= i {
      PassStops(scan, rows, found, n);
    } else if i == n - 1 {
      PassStops(scan, rows, found, i);
    } else {
      var m := n - 1;
      PassFlags(scan, rows, found, m, i);
      PassStops(scan, rows, found, m);
      UnsavedIsLast(scan, rows, found, m, i);
      RootRowsGrow(scan, rows, i, m);
      EarlierRow(scan, rows, found, scan.MissingPass(rows, found, m), m, n, i);
    }
  }

  /** The gone rows among the first `n`, given those before the last one. */
  lemma {:induction false} GoneRowsNext(scan: Scan, rows: seq<Row>, found: set<Path>, m: nat, n: nat)
    requires m < n == m + 1 <= |rows|
    ensures |GoneRows(scan, rows, found, n)| ==
            |GoneRows(scan, rows, found, m)| + if Taken(scan, rows, found, m) then 1 else 0
  {
    var before, after := GoneRows(scan, rows, found, m), GoneRows(scan, rows, found, n);
    assert after == before + if Taken(scan, rows, found, m) then {m} else {};
  }

  /** The pass counts the gone rows it reaches, dropped flags included. */
  lemma {:induction false} PassCounts(scan: Scan, rows: seq<Row>, found: set<Path>, n: nat)
    requires n <= |rows| && !scan.Canceled(|scan.candidates| + 1)
    ensures scan.MissingPass(rows, found, n).missing == |GoneRows(scan, rows, found, n)|
  {
    if n == 0 {
    } else {
      var m := n - 1;
      PassCounts(scan, rows, found, m);
      GoneRowsNext(scan, rows, found, m, n);
      PassStops(scan, rows, found, m);
      PassStops(scan, rows, found, n);
    }
  }
}
