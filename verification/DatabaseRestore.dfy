/** A scheduled database restore at start-up: the files it touches and every place where it may fail. */
module DatabaseRestore {
  import opened Prelude

  const CURRENT_SCHEMA: int := 6

  datatype Schema = Version(number: int) | NoTables | Unreadable

  /** A database file: what users stored, its SHA-256, whether its quick check passes, its schema marker. */
  datatype Content = Content(data: string, digest: string, healthy: bool, schema: Schema)

  datatype Request = Request(version: int, snapshotId: string, digest: string, safetyId: string)

  /** The pending request file. Text that is not valid UTF-8 is an error of its own, which nothing catches. */
  datatype Pending = Absent | Undecodable | Corrupt | Scheduled(request: Request)

  datatype Status = Failed | Succeeded | RolledBack | RollbackFailed

  datatype Record = Record(status: Status, request: Option<Request>)

  /** The calls that may raise an error on their own account. */
  datatype Site =
    | Check          // reading the snapshot for its hash and schema
    | Refresh        // copying the live database over the safety snapshot
    | Validate       // checking the safety snapshot and writing its manifest
    | Rewrite        // rewriting the pending request
    | Replace        // staging the snapshot and putting it in place
    | Restored       // initializing the restored database
    | ReplaceBack    // staging the safety snapshot and putting it in place
    | RestoredBack   // initializing the database again
    | Start          // initializing the database when no restore took place
    | Write          // writing the result record
    | Remove         // removing the pending request

  datatype Exit = Returned | Raised

  datatype World = World(live: Content, snapshots: map<string, Content>, pending: Pending, record: Option<Record>) {

    /** Creating tables leaves users' data alone and refuses another schema. */
    predicate Accepted() {
      live.schema == Version(CURRENT_SCHEMA) || live.schema == NoTables
    }

    function Created(): World {
      this.(live := live.(schema := Version(CURRENT_SCHEMA)))
    }

    /** After this start from `w`, what the database held is live or in the safety snapshot. */
    predicate Keeps(w: World) {
      || live.data == w.live.data
      || (w.pending.Scheduled? && w.pending.request.safetyId in snapshots
          && snapshots[w.pending.request.safetyId] == w.live)
    }

    /** The record of a start from `w` says what became of the database: after `Failed` or `RolledBack` it
        holds what it held, after `Succeeded` the snapshot that was checked, or, when the request names
        one snapshot as both target and safety copy, still what it held. */
    predicate TruthfulAbout(w: World) {
      && record.Some?
      && record.value.request == (if w.pending.Scheduled? then Some(w.pending.request) else None)
      && match record.value.status
         case Failed => live.data == w.live.data
         case RolledBack => w.pending.Scheduled? && live.data == w.live.data
         case Succeeded =>
           && w.pending.Scheduled?
           && var r := w.pending.request;
           && r.snapshotId in w.snapshots
           && w.snapshots[r.snapshotId].healthy && w.snapshots[r.snapshotId].digest == r.digest
           && (if r.snapshotId != r.safetyId then live == w.snapshots[r.snapshotId]
               else live.data == w.live.data)
         case RollbackFailed => false
    }

    /** A failing initialization leaves an empty database with the schema `halfway`, others alone. */
    function Interrupted(halfway: Schema): World {
      if live.schema == NoTables then this.(live := live.(schema := halfway)) else this
    }

    predicate Usable(snapshotId: string, ids: set<string>) {
      snapshotId in ids && snapshotId in snapshots
    }
  }

  /** One start: the snapshot ids that are well formed and lead into the backup directory, which calls
      fail, and how far a failing initialization gets with the schema of an empty database. */
  datatype Launch = Launch(ids: set<string>, faults: set<Site>, halfway: Schema) {

    /** The files after an initialization, which fails if `fault` or if the schema is another one. */
    function Attempted(w: World, fault: bool): World {
      if !w.Accepted() then w else if fault then w.Interrupted(halfway) else w.Created()
    }

    /** Everything that is checked before the safety snapshot is refreshed. */
    predicate Passes(w: World, r: Request) {
      && r.version == 1 && w.Usable(r.snapshotId, ids) && w.Usable(r.safetyId, ids)
      && Check !in faults
      && w.snapshots[r.snapshotId].healthy && w.snapshots[r.snapshotId].digest == r.digest
      && w.snapshots[r.snapshotId].schema == Version(CURRENT_SCHEMA)
    }

    /** The safety snapshot takes the live content, if that can be copied and verified. */
    function Refreshed(w: World, r: Request): World {
      if Refresh !in faults && w.live.healthy then w.(snapshots := w.snapshots[r.safetyId := w.live]) else w
    }

    /** The files when the first part ends, and whether the database was replaced. */
    function Switch(w: World, r: Request): (World, bool) {
      if !Passes(w, r) then (w, false) else
      var safe := Refreshed(w, r);
      if Refresh in faults || !w.live.healthy || Validate in faults || Rewrite in faults || Replace in faults
         || r.snapshotId !in safe.snapshots || !safe.snapshots[r.snapshotId].healthy
      then (safe, false)
      else (safe.(live := safe.snapshots[r.snapshotId]), true)
    }

    /** The result is recorded, then the request removed, then the database initialized. */
    function Fail(w: World, r: Request): (World, Exit) {
      if Write in faults then (w, Raised) else
      var recorded := w.(record := Some(Record(Failed, Some(r))));
      if Remove in faults then (recorded, Raised) else
      var removed := recorded.(pending := Absent);
      (Attempted(removed, Start in faults), if Start in faults || !w.Accepted() then Raised else Returned)
    }

    /** The result is recorded and the request removed. */
    function Close(w: World, r: Request, status: Status): (World, Exit) {
      if Write in faults then (w, Raised) else
      var recorded := w.(record := Some(Record(status, Some(r))));
      if Remove in faults then (recorded, Raised) else (recorded.(pending := Absent), Returned)
    }

    function RollBack(w: World, r: Request): (World, Exit) {
      if ReplaceBack in faults || r.safetyId !in w.snapshots || !w.snapshots[r.safetyId].healthy
      then (Close(w, r, RollbackFailed).0, Raised)
      else
        var back := w.(live := w.snapshots[r.safetyId]);
        var tried := Attempted(back, RestoredBack in faults);
        if RestoredBack in faults || !back.Accepted() then (Close(tried, r, RollbackFailed).0, Raised)
        else Close(tried, r, RolledBack)
    }

    function Apply(w: World, r: Request): (World, Exit) {
      var (switched, replaced) := Switch(w, r);
      if !replaced then Fail(switched, r)
      else
        var tried := Attempted(switched, Restored in faults);
        if Restored in faults || !switched.Accepted() then RollBack(tried, r) else Close(tried, r, Succeeded)
    }

    /** The whole start. However it ends nothing is lost; when it returns the database has the current
        schema, the request is gone and its record is truthful. */
    function Initialize(w: World): (r: (World, Exit))
      ensures r.0.Keeps(w)
      ensures r.1 == Returned ==> r.0.live.schema == Version(6)
      ensures r.1 == Returned && w.pending != Absent ==> r.0.pending == Absent && r.0.TruthfulAbout(w)
    {
      match w.pending
      case Absent =>
        (Attempted(w, Start in faults), if Start in faults || !w.Accepted() then Raised else Returned)
      case Undecodable => (w, Raised)
      case Corrupt =>
        if Remove in faults then (w, Raised) else
        var removed := w.(pending := Absent);
        if Write in faults then (removed, Raised) else
        var recorded := removed.(record := Some(Record(Failed, None)));
        (Attempted(recorded, Start in faults), if Start in faults || !w.Accepted() then Raised else Returned)
      case Scheduled(r) => Apply(w, r)
    }
  }

  // ---------------------------------------------------------------------------------------------
  // The files themselves
  // ---------------------------------------------------------------------------------------------

  /** The application's data directory. A method that returns false has raised an error. */
  class AppData {
    var live: Content
    var snapshots: map<string, Content>
    var pending: Pending
    var record: Option<Record>

    ghost function Files(): World
      reads this
    {
      World(live, snapshots, pending, record)
    }

    constructor (live: Content, snapshots: map<string, Content>, pending: Pending, record: Option<Record>)
      ensures Files() == World(live, snapshots, pending, record)
    {
      this.live, this.snapshots, this.pending, this.record := live, snapshots, pending, record;
    }

    method CreateDbAndTables(launch: Launch, fault: bool) returns (ok: bool)
      modifies this`live
      ensures ok <==> !fault && old(Files()).Accepted()
      ensures Files() == launch.Attempted(old(Files()), fault)
      ensures live.data == old(live).data
    {
      if live.schema == Unreadable || (live.schema.Version? && live.schema.number != CURRENT_SCHEMA) {
        return false;
      }
      if fault {
        if live.schema == NoTables {
          live := live.(schema := launch.halfway);
        }
        return false;
      }
      live := live.(schema := Version(CURRENT_SCHEMA));
      ok := true;
    }

    method RefreshSafety(safetyId: string, fault: bool) returns (ok: bool)
      modifies this`snapshots
      ensures ok <==> !fault && live.healthy
      ensures snapshots == if ok then old(snapshots)[safetyId := live] else old(snapshots)
    {
      ok := !fault && live.healthy;
      if ok {
        snapshots := snapshots[safetyId := live];
      }
    }

    method ReplaceDatabaseFromSnapshot(snapshotId: string, fault: bool) returns (ok: bool)
      modifies this`live
      ensures ok <==> !fault && snapshotId in snapshots && snapshots[snapshotId].healthy
      ensures ok ==> live == snapshots[snapshotId]
      ensures !ok ==> live == old(live)
    {
      if fault || snapshotId !in snapshots || !snapshots[snapshotId].healthy {
        return false;
      }
      live := snapshots[snapshotId];
      ok := true;
    }

    method RecordResult(status: Status, request: Option<Request>, fault: bool) returns (ok: bool)
      modifies this`record
      ensures ok == !fault
      ensures record == if ok then Some(Record(status, request)) else old(record)
    {
      if !fault {
        record := Some(Record(status, request));
      }
      ok := !fault;
    }

    method RemovePending(fault: bool) returns (ok: bool)
      modifies this`pending
      ensures ok == !fault
      ensures pending == if ok then Absent else old(pending)
    {
      if !fault {
        pending := Absent;
      }
      ok := !fault;
    }

    /** The checks, the refreshed safety snapshot and the replacement, in order; stops at the first error. */
    method SwitchToSnapshot(launch: Launch, r: Request) returns (ok: bool)
      modifies this
      ensures (Files(), ok) == launch.Switch(old(Files()), r)
    {
      ok := false;
      if r.version != 1 {
        return;
      }
      if r.snapshotId !in launch.ids || r.snapshotId !in snapshots {
        return;
      }
      if r.safetyId !in launch.ids || r.safetyId !in snapshots {
        return;
      }
      var snapshot := snapshots[r.snapshotId];
      if !snapshot.healthy || Check in launch.faults || snapshot.digest != r.digest {
        return;
      }
      if snapshot.schema != Version(CURRENT_SCHEMA) {
        return;
      }
      ok := RefreshSafety(r.safetyId, Refresh in launch.faults);
      if !ok {
        return;
      }
      if Validate in launch.faults || !snapshots[r.safetyId].healthy {
        return false;
      }
      if Rewrite in launch.faults {
        return false;
      }
      ok := ReplaceDatabaseFromSnapshot(r.snapshotId, Replace in launch.faults);
    }

    method ApplyRestore(launch: Launch, r: Request) returns (exit: Exit)
      modifies this
      ensures (Files(), exit) == launch.Apply(old(Files()), r)
    {
      var replaced := SwitchToSnapshot(launch, r);
      if !replaced {
        var written := RecordResult(Failed, Some(r), Write in launch.faults);
        if !written {
          return Raised;
        }
        var removed := RemovePending(Remove in launch.faults);
        if !removed {
          return Raised;
        }
        var created := CreateDbAndTables(launch, Start in launch.faults);
        return if created then Returned else Raised;
      }
      var restored := CreateDbAndTables(launch, Restored in launch.faults);
      if restored {
        exit := CloseRestore(launch, r, Succeeded);
        return;
      }
      var back := ReplaceDatabaseFromSnapshot(r.safetyId, ReplaceBack in launch.faults);
      if back {
        back := CreateDbAndTables(launch, RestoredBack in launch.faults);
      }
      if !back {
        exit := CloseRestore(launch, r, RollbackFailed);
        return Raised;
      }
      exit := CloseRestore(launch, r, RolledBack);
    }

    method CloseRestore(launch: Launch, r: Request, status: Status) returns (exit: Exit)
      modifies this
      ensures (Files(), exit) == launch.Close(old(Files()), r, status)
    {
      var written := RecordResult(status, Some(r), Write in launch.faults);
      if !written {
        return Raised;
      }
      var removed := RemovePending(Remove in launch.faults);
      exit := if removed then Returned else Raised;
    }

    method InitializeDatabaseWithPendingRestore(launch: Launch) returns (exit: Exit)
      modifies this
      ensures (Files(), exit) == launch.Initialize(old(Files()))
      ensures Files().Keeps(old(Files()))
      ensures exit == Returned ==> live.schema == Version(6)
      ensures exit == Returned && old(pending) != Absent ==> pending == Absent && Files().TruthfulAbout(old(Files()))
    {
      match pending
      case Absent =>
        var created := CreateDbAndTables(launch, Start in launch.faults);
        exit := if created then Returned else Raised;
      case Undecodable =>
        exit := Raised;
      case Corrupt =>
        var removed := RemovePending(Remove in launch.faults);
        if !removed {
          return Raised;
        }
        var written := RecordResult(Failed, None, Write in launch.faults);
        if !written {
          return Raised;
        }
        var created := CreateDbAndTables(launch, Start in launch.faults);
        exit := if created then Returned else Raised;
      case Scheduled(r) =>
        exit := ApplyRestore(launch, r);
    }
  }
}
