/** The table of audio items and the scan that makes it agree with a library root on disk. */
module LibraryScan {
  import opened Prelude

  type Path = seq<string>

  /** The fingerprint is absent when hashing is switched off or fails. */
  datatype Stat = Stat(size: nat, mtime: string, hash: Option<string>)

  /** A file system that does not change: regular files under their resolved paths, and what other paths
      resolve to. */
  datatype Files = Files(stats: map<Path, Stat>, links: map<Path, Path>) {

    /** Resolved paths resolve to themselves. */
    predicate Valid() {
      && (forall p :: p in links ==> links[p] !in links)
      && (forall p :: p in stats ==> p !in links)
    }

    function Canonical(p: Path): Path {
      if p in links then links[p] else p
    }

    predicate Available(p: Path) {
      Canonical(p) in stats
    }

    /** A candidate under the root, resolved; nothing when it is gone or leads outside. */
    function Resolve(root: Path, candidate: Path): Option<Path> {
      var p := Canonical(candidate);
      if p in stats && root <= p then Some(p) else None
    }
  }

  /** A row; its id is its place in the table. `userData` stands for everything users attached to the item. */
  datatype Row = Row(path: Path, root: Option<nat>, size: Option<nat>, mtime: Option<string>,
                     hash: Option<string>, missing: bool, updatedAt: int, userData: string)

  /** What a look at the task row does to flags that are set but not yet written: a scan run as a task
      expires its session there, which drops them; a scan without a task, or a session that writes
      through, keeps them. Reading the next row writes them. */
  datatype Session = Expiring | WriteThrough

  /** One scan: the root, the candidates in the order they are listed, whether listing then fails, how
      many looks at the task row come before the one that sees a cancel request, and the session. */
  datatype Scan = Scan(files: Files, root: nat, rootPath: Path, candidates: seq<Path>, broken: bool,
                       cancel: Option<nat>, session: Session, now: int) {

    predicate Canceled(look: nat) {
      cancel.Some? && cancel.value <= look
    }

    predicate Changed(row: Row, stat: Stat) {
      row.size != Some(stat.size) || row.mtime != Some(stat.mtime)
    }

    /** The row as it is written for the file at `p`. */
    function Written(p: Path, userData: string): Row
      requires p in files.stats
    {
      var stat := files.stats[p];
      Row(p, Some(root), Some(stat.size), Some(stat.mtime), stat.hash, false, now, userData)
    }

    /** A row that may be the file now at `p`: same fingerprint, compatible size, its own file gone. */
    predicate MayBeMoved(row: Row, p: Path)
      requires p in files.stats
    {
      && row.hash.Some? && row.hash == files.stats[p].hash
      && files.Canonical(row.path) != files.Canonical(p)
      && (row.size.None? || row.size.value == files.stats[p].size)
      && !files.Available(row.path)
    }

    /** Rows of this root come first, then missing ones, then the one changed longest ago. */
    predicate Preferred(a: Row, b: Row) {
      if (a.root == Some(root)) != (b.root == Some(root)) then a.root == Some(root)
      else if a.missing != b.missing then a.missing
      else a.updatedAt < b.updatedAt
    }

    function BestMoved(rows: seq<Row>, p: Path): (best: Option<nat>)
      requires p in files.stats
      ensures best.Some? ==> best.value < |rows| && MayBeMoved(rows[best.value], p)
    {
      if rows == [] then None else
      var n := |rows| - 1;
      var best := BestMoved(rows[..n], p);
      if !MayBeMoved(rows[n], p) then best
      else if best.None? || Preferred(rows[n], rows[best.value]) then Some(n)
      else best
    }

    /** A known file whose size and time did not change. */
    function Touched(row: Row, stat: Stat): Row {
      var filled := row.hash.None? && stat.hash.Some?;
      if row.missing || row.root != Some(root) || filled
      then row.(root := Some(root), missing := false, hash := if filled then stat.hash else row.hash, updatedAt := now)
      else row
    }

    function Reconcile(rows: seq<Row>, candidate: Path): Outcome {
      var resolved := files.Resolve(rootPath, candidate);
      if resolved.None? then Outcome(rows, None, 0, 0) else
      var p := resolved.value;
      var stat := files.stats[p];
      var known := RowAt(rows, p);
      if known.Some? then
        var row := rows[known.value];
        var next := if Changed(row, stat) then Written(p, row.userData) else Touched(row, stat);
        Outcome(rows[known.value := next], resolved, 0, if Changed(row, stat) || next != row then 1 else 0)
      else
        var moved := BestMoved(rows, p);
        if moved.Some?
        then Outcome(rows[moved.value := Written(p, rows[moved.value].userData)], resolved, 0, 1)
        else Outcome(rows + [Written(p, "")], resolved, 1, 0)
    }

    /** The table and the counters after the first `n` candidates. */
    function Progress(rows: seq<Row>, n: nat): State
      requires n <= |candidates|
    {
      if n == 0 then State(rows, {}, 0, 0) else
      var s := Progress(rows, n - 1);
      var r := Reconcile(s.rows, candidates[n - 1]);
      State(r.rows, if r.resolved.Some? then s.found + {r.resolved.value} else s.found,
            s.imported + r.imported, s.updated + r.updated)
    }

    /** The rows after a look at the task row: an unwritten flag is gone if the session expires. */
    function Looked(rows: seq<Row>, s: Pass): (r: seq<Row>)
      requires |s.rows| == |rows|
      ensures |r| == |rows|
    {
      if session == Expiring && s.unsaved.Some? && s.unsaved.value < |rows|
      then s.rows[s.unsaved.value := rows[s.unsaved.value]]
      else s.rows
    }

    /** One step of the missing pass: row `m`. It looks for a cancel request at every 25th row of this
        root, and stops there. */
    function PassRow(rows: seq<Row>, found: set<Path>, s: Pass, m: nat): (pass: Pass)
      requires m < |rows| == |s.rows|
      ensures |pass.rows| == |rows|
    {
      var row := rows[m];
      if s.canceled || row.root != Some(root) then s else
      var look := s.index % 25 == 0;
      var kept := if look then Looked(rows, s) else s.rows;
      if look && Canceled(|candidates| + 2 + s.index / 25) then Pass(kept, None, s.index, s.missing, true)
      else if row.path !in found && !row.missing
      then Pass(kept[m := row.(missing := true, updatedAt := now)], Some(m), s.index + 1, s.missing + 1, false)
      else Pass(kept, None, s.index + 1, s.missing, false)
    }

    /** The missing pass over the first `n` rows. */
    function MissingPass(rows: seq<Row>, found: set<Path>, n: nat): (pass: Pass)
      requires n <= |rows|
      ensures |pass.rows| == |rows|
    {
      if n == 0 then Pass(rows, None, 0, 0, false)
      else PassRow(rows, found, MissingPass(rows, found, n - 1), n - 1)
    }

    /** How many candidates are handled before the loop sees a cancel request or the end. */
    function Handled(): (n: nat)
      ensures n <= |candidates|
    {
      if cancel.Some? && 0 < cancel.value <= |candidates| then cancel.value - 1 else |candidates|
    }

    /** The whole scan: the table it leaves and what it reports. */
    function Outcomes(rows: seq<Row>): (seq<Row>, Report) {
      if Canceled(0) then (rows, CanceledScan(0, 0, 0)) else
      var s := Progress(rows, Handled());
      if Handled() < |candidates| then (s.rows, CanceledScan(s.imported, s.updated, 0))
      else if broken then (s.rows, EnumerationFailed)
      else if Canceled(|candidates| + 1) then (s.rows, CanceledScan(s.imported, s.updated, 0))
      else
        var pass := MissingPass(s.rows, s.found, |s.rows|);
        if pass.canceled then (s.rows, CanceledScan(s.imported, s.updated, pass.missing))
        else (pass.rows, Done(s.imported, s.updated, pass.missing))
    }
  }

  datatype Outcome = Outcome(rows: seq<Row>, resolved: Option<Path>, imported: nat, updated: nat)

  datatype State = State(rows: seq<Row>, found: set<Path>, imported: nat, updated: nat)

  /** The missing pass so far; `unsaved` is the row whose flag is set but not written. */
  datatype Pass = Pass(rows: seq<Row>, unsaved: Option<nat>, index: nat, missing: nat, canceled: bool)

  datatype Report =
    | Done(imported: nat, updated: nat, missing: nat)
    | CanceledScan(imported: nat, updated: nat, missing: nat)
    | EnumerationFailed

  /** The row with path `p`. */
  function RowAt(rows: seq<Row>, p: Path): (r: Option<nat>)
    ensures r.Some? ==> r.value < |rows| && rows[r.value].path == p
    ensures r.None? ==> forall i :: 0 <= i < |rows| ==> rows[i].path != p
  {
    if rows == [] then None
    else if rows[|rows| - 1].path == p then Some(|rows| - 1)
    else RowAt(rows[..|rows| - 1], p)
  }

  /** The column's unique constraint. */
  ghost predicate Unique(rows: seq<Row>) {
    forall i, j :: 0 <= i < |rows| && 0 <= j < |rows| && rows[i].path == rows[j].path ==> i == j
  }

  // ---------------------------------------------------------------------------------------------
  // The table itself
  // ---------------------------------------------------------------------------------------------

  /** The audio item table of the database, updated in place. */
  class ItemTable {
    var rows: seq<Row>

    constructor (rows: seq<Row>)
      ensures this.rows == rows
    {
      this.rows := rows;
    }

    method FindByPath(p: Path) returns (r: Option<nat>)
      requires Unique(rows)
      ensures r == RowAt(rows, p)
    {
      r := None;
      for i := 0 to |rows|
        invariant r == RowAt(rows[..i], p)
      {
        assert rows[..i + 1][..i] == rows[..i];
        if rows[i].path == p {
          r := Some(i);
        }
      }
      assert rows[..|rows|] == rows;
    }

    method FindMoved(scan: Scan, p: Path) returns (best: Option<nat>)
      requires p in scan.files.stats
      ensures best == scan.BestMoved(rows, p)
    {
      best := None;
      for i := 0 to |rows|
        invariant best == scan.BestMoved(rows[..i], p)
        invariant best.Some? ==> best.value < i
      {
        assert rows[..i + 1][..i] == rows[..i];
        if scan.MayBeMoved(rows[i], p) && (best.None? || scan.Preferred(rows[i], rows[best.value])) {
          best := Some(i);
        }
      }
      assert rows[..|rows|] == rows;
    }

    method ReconcileCandidate(scan: Scan, candidate: Path)
      returns (resolved: Option<Path>, imported: nat, updated: nat)
      requires Unique(rows)
      modifies this
      ensures scan.Reconcile(old(rows), candidate) == Outcome(rows, resolved, imported, updated)
    {
      imported, updated := 0, 0;
      resolved := scan.files.Resolve(scan.rootPath, candidate);
      if resolved.None? {
        return;
      }
      var p := resolved.value;
      var stat := scan.files.stats[p];
      var known := FindByPath(p);
      if known.Some? {
        var row := rows[known.value];
        if scan.Changed(row, stat) {
          rows := rows[known.value := scan.Written(p, row.userData)];
          updated := 1;
          return;
        }
        var touched := false;
        if row.missing {
          row := row.(missing := false);
          touched := true;
        }
        if row.root != Some(scan.root) {
          row := row.(root := Some(scan.root));
          touched := true;
        }
        if row.hash.None? && stat.hash.Some? {
          row := row.(hash := stat.hash);
          touched := true;
        }
        if touched {
          rows := rows[known.value := row.(updatedAt := scan.now)];
          updated := 1;
        }
        assert rows == old(rows)[known.value := scan.Touched(old(rows)[known.value], stat)];
        return;
      }
      var moved := FindMoved(scan, p);
      if moved.Some? {
        rows := rows[moved.value := scan.Written(p, rows[moved.value].userData)];
        updated := 1;
        return;
      }
      rows := rows + [scan.Written(p, "")];
      imported := 1;
    }

    /** The pass over the rows of this root, without its commit. */
    method ReconcileMissing(scan: Scan, found: set<Path>) returns (missing: nat, canceled: bool)
      modifies this
      ensures var pass := scan.MissingPass(old(rows), found, |old(rows)|);
              rows == pass.rows && missing == pass.missing && canceled == pass.canceled
    {
      missing, canceled := 0, false;
      var index := 0;
      var unsaved: Option<nat> := None;
      var stored := rows;
      for i := 0 to |rows|
        invariant |rows| == |stored| && stored == old(rows)
        invariant scan.MissingPass(stored, found, i) == Pass(rows, unsaved, index, missing, canceled)
        invariant unsaved.Some? ==> unsaved.value < i
        invariant forall k :: i <= k < |rows| ==> rows[k] == stored[k]
      {
        if !canceled && rows[i].root == Some(scan.root) {
          if index % 25 == 0 {
            if scan.session == Expiring && unsaved.Some? {
              rows := rows[unsaved.value := stored[unsaved.value]];
            }
            canceled := scan.Canceled(|scan.candidates| + 2 + index / 25);
          }
          unsaved := None;
          if !canceled {
            if rows[i].path !in found && !rows[i].missing {
              rows := rows[i := rows[i].(missing := true, updatedAt := scan.now)];
              unsaved := Some(i);
              missing := missing + 1;
            }
            index := index + 1;
          }
        }
      }
    }

    method ScanLibraryRoot(scan: Scan) returns (report: Report)
      requires Unique(rows)
      modifies this
      ensures (rows, report) == scan.Outcomes(old(rows))
    {
      if scan.Canceled(0) {
        return CanceledScan(0, 0, 0);
      }
      var found, imported, updated := {}, 0, 0;
      var canceled := false;
      ghost var was := rows;
      var n := 0;
      while n < |scan.candidates| && !canceled
        invariant n <= |scan.candidates| && Unique(rows)
        invariant scan.Progress(was, n) == State(rows, found, imported, updated)
        invariant !scan.Canceled(n)
        invariant canceled ==> n < |scan.candidates| && scan.Canceled(n + 1)
        decreases |scan.candidates| - n, !canceled
      {
        if scan.Canceled(n + 1) {
          canceled := true;
        } else {
          UniqueKept(scan, rows, scan.candidates[n]);
          var resolved, i, u := ReconcileCandidate(scan, scan.candidates[n]);
          if resolved.Some? {
            found := found + {resolved.value};
          }
          imported := imported + i;
          updated := updated + u;
          n := n + 1;
        }
      }
      assert n == scan.Handled();
      if canceled {
        return CanceledScan(imported, updated, 0);
      }
      if scan.broken {
        return EnumerationFailed;
      }
      if scan.Canceled(n + 1) {
        return CanceledScan(imported, updated, 0);
      }
      var committed := rows;
      var missing;
      missing, canceled := ReconcileMissing(scan, found);
      if canceled {
        rows := committed;
        return CanceledScan(imported, updated, missing);
      }
      report := Done(imported, updated, missing);
    }
  }

  /** One candidate never gives two rows the same path. */
  lemma {:induction false} UniqueKept(scan: Scan, rows: seq<Row>, candidate: Path)
    requires Unique(rows)
    ensures Unique(scan.Reconcile(rows, candidate).rows)
  {
  }
}
