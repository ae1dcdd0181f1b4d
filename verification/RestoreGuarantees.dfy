/** What a start with a pending restore guarantees, whatever fails. */
module RestoreGuarantees {
  import opened Prelude
  import opened DatabaseRestore

  /** The start that applies the request returned, and recorded `status`. */
  predicate Recorded(launch: Launch, w: World, status: Status) {
    var (after, exit) := launch.Initialize(w);
    exit == Returned && after.record.Some? && after.record.value.status == status
  }

  /** An empty database or one of the current schema. */
  predicate Supported(c: Content) {
    c.schema == Version(6) || c.schema == NoTables
  }

  /** A start without a request only initializes the database: it returns exactly when that does not fail
      and the schema is the current one or none, and nothing but the schema of an empty database changes, as
      far as the initialization gets. */
  lemma StartWithoutRequest(launch: Launch, w: World)
    requires w.pending == Absent
    ensures var (after, exit) := launch.Initialize(w);
            && (exit == Returned <==> Start !in launch.faults && Supported(w.live))
            && after == w.(live := after.live)
            && (exit == Returned ==> after.live == w.live.(schema := Version(6)))
            && (w.live.schema != NoTables ==> after == w)
            && (w.live.schema == NoTables && exit == Raised ==> after.live == w.live.(schema := launch.halfway))
  {
  }

  /** The request is of the known version, both snapshots exist under safe ids, and the requested one is
      healthy, is the one that was requested, and has the current schema. */
  predicate Restorable(launch: Launch, w: World, r: Request) {
    && r.version == 1
    && r.snapshotId in launch.ids && r.snapshotId in w.snapshots
    && r.safetyId in launch.ids && r.safetyId in w.snapshots
    && w.snapshots[r.snapshotId].healthy
    && w.snapshots[r.snapshotId].digest == r.digest
    && w.snapshots[r.snapshotId].schema == Version(6)
  }

  /** The start gets as far as replacing the database. */
  predicate Replaces(launch: Launch, w: World, r: Request) {
    && Restorable(launch, w, r) && w.live.healthy
    && launch.faults !! {Check, Refresh, Validate, Rewrite, Replace}
  }

  /** The replaced database cannot be initialized: the call fails, or the safety copy was also the target. */
  predicate Refuses(launch: Launch, w: World, r: Request) {
    Restored in launch.faults || (r.snapshotId == r.safetyId && !Supported(w.live))
  }

  /** A restore is recorded as succeeded exactly when every check passes, the live database can be
      copied, and no call on the way fails; then the safety snapshot holds what the database held. */
  lemma SucceedsExactly(launch: Launch, w: World, r: Request)
    requires w.pending == Scheduled(r)
    ensures Recorded(launch, w, Succeeded) <==>
            Replaces(launch, w, r) && !Refuses(launch, w, r) && launch.faults !! {Write, Remove}
    ensures Recorded(launch, w, Succeeded) ==>
              launch.Initialize(w).0.snapshots == w.snapshots[r.safetyId := w.live]
  {
  }

  /** It is recorded as rolled back exactly when the replaced database cannot be initialized and the old one
      can be put back. */
  lemma RolledBackExactly(launch: Launch, w: World, r: Request)
    requires w.pending == Scheduled(r)
    ensures Recorded(launch, w, RolledBack) <==>
            && Replaces(launch, w, r) && Refuses(launch, w, r) && Supported(w.live)
            && launch.faults !! {ReplaceBack, RestoredBack, Write, Remove}
    ensures Recorded(launch, w, RolledBack) ==>
              launch.Initialize(w).0.snapshots == w.snapshots[r.safetyId := w.live]
  {
  }

  /** It is recorded as failed exactly when the database is not replaced and can be initialized as it is. */
  lemma FailsExactly(launch: Launch, w: World, r: Request)
    requires w.pending == Scheduled(r)
    ensures Recorded(launch, w, Failed) <==>
            !Replaces(launch, w, r) && Supported(w.live) && launch.faults !! {Start, Write, Remove}
    ensures !Restorable(launch, w, r) ==>
              launch.Initialize(w).0.snapshots == w.snapshots && launch.Initialize(w).0.live.data == w.live.data
  {
  }

  /** What a start with a request records, whether it returns or raises: nothing when the record cannot be
      written; otherwise failed, succeeded or rolled back as above, and that the rollback failed when the
      replaced database cannot be initialized and the old one cannot be put back. */
  lemma RecordsExactly(launch: Launch, w: World, r: Request)
    requires w.pending == Scheduled(r)
    ensures var status := if !Replaces(launch, w, r) then Failed
                          else if !Refuses(launch, w, r) then Succeeded
                          else if Supported(w.live) && launch.faults !! {ReplaceBack, RestoredBack} then RolledBack
                          else RollbackFailed;
            && launch.Initialize(w).0.record ==
               (if Write in launch.faults then w.record else Some(Record(status, Some(r))))
            && (status == RollbackFailed ==> launch.Initialize(w).1 == Raised)
  {
  }

  /** A request file that is damaged is removed and recorded as failed, and the database started as it is. */
  lemma DamagedRequestFails(launch: Launch, w: World)
    requires w.pending == Corrupt
    ensures var (after, exit) := launch.Initialize(w);
            && (exit == Returned <==> Supported(w.live) && launch.faults !! {Remove, Write, Start})
            && (exit == Returned ==>
                  after == World(w.live.(schema := Version(6)), w.snapshots, Absent, Some(Record(Failed, None))))
  {
  }

  /** A succeeded restore put the checked snapshot in place exactly when the request named another safety
      snapshot, or the database already held the same. */
  lemma SucceededMeansRestored(launch: Launch, w: World, r: Request)
    requires w.pending == Scheduled(r) && Recorded(launch, w, Succeeded)
    ensures r.snapshotId in w.snapshots
    ensures launch.Initialize(w).0.live.data == w.snapshots[r.snapshotId].data <==>
            r.snapshotId != r.safetyId || w.live.data == w.snapshots[r.snapshotId].data
  {
  }

  /** A request that names one snapshot as both: the refresh overwrites the target before it is restored. */
  lemma SameSnapshotRestoresNothing()
    ensures var was := Content("old", "d1", true, Version(CURRENT_SCHEMA));
            var live := Content("new", "d2", true, Version(CURRENT_SCHEMA));
            var w := World(live, map["s.sqlite" := was], Scheduled(Request(1, "s.sqlite", "d1", "s.sqlite")), None);
            && Recorded(Launch({"s.sqlite"}, {}, NoTables), w, Succeeded)
            && Launch({"s.sqlite"}, {}, NoTables).Initialize(w).0.live == live
  {
  }

  /** When restore and rollback both fail the start raises, and the safety snapshot holds what the
      database held. */
  lemma BothFailedKeepsSafety(launch: Launch, w: World, r: Request)
    requires w.pending == Scheduled(r) && launch.Initialize(w).0.record == Some(Record(RollbackFailed, Some(r)))
    requires w.record != Some(Record(RollbackFailed, Some(r)))
    ensures var (after, exit) := launch.Initialize(w);
            && exit == Raised
            && r.safetyId in after.snapshots && after.snapshots[r.safetyId] == w.live
  {
  }

  lemma ApplySnapshots(launch: Launch, w: World, r: Request)
    ensures launch.Apply(w, r).0.snapshots == launch.Switch(w, r).0.snapshots
  {
  }

  /** A start changes no snapshot but the safety snapshot of its request. */
  lemma OtherSnapshotsStay(launch: Launch, w: World, id: string)
    requires w.pending.Scheduled? ==> id != w.pending.request.safetyId
    ensures var after := launch.Initialize(w).0;
            (id in after.snapshots <==> id in w.snapshots)
            && (id in w.snapshots ==> after.snapshots[id] == w.snapshots[id])
  {
    if w.pending.Scheduled? {
      ApplySnapshots(launch, w, w.pending.request);
    }
  }

  /** A start that raises keeps the request only when it could not write its record or remove the
      request, or could not read it. */
  lemma RequestStaysExactly(launch: Launch, w: World)
    requires w.pending != Absent
    ensures launch.Initialize(w).0.pending != Absent <==>
            w.pending == Undecodable || Remove in launch.faults || (w.pending.Scheduled? && Write in launch.faults)
  {
  }

  /** The guarantee is for one start: when the record of a finished restore cannot be written, the next
      start applies the request again, and its refresh overwrites the safety snapshot. */
  lemma SecondStartMayLoseContent()
    ensures var was := Content("old", "d1", true, Version(CURRENT_SCHEMA));
            var live := Content("new", "d2", true, Version(CURRENT_SCHEMA));
            var w := World(live, map["s.sqlite" := was, "p.sqlite" := live],
                           Scheduled(Request(1, "s.sqlite", "d1", "p.sqlite")), None);
            var ids := {"s.sqlite", "p.sqlite"};
            var once := Launch(ids, {Write}, NoTables).Initialize(w).0;
            var twice := Launch(ids, {}, NoTables).Initialize(once).0;
            && twice.record == Some(Record(Succeeded, Some(w.pending.request)))
            && twice.live == was && twice.snapshots == map["s.sqlite" := was, "p.sqlite" := was]
  {
    var was := Content("old", "d1", true, Version(CURRENT_SCHEMA));
    var live := Content("new", "d2", true, Version(CURRENT_SCHEMA));
    var r := Request(1, "s.sqlite", "d1", "p.sqlite");
    var w := World(live, map["s.sqlite" := was, "p.sqlite" := live], Scheduled(r), None);
    var ids := {"s.sqlite", "p.sqlite"};
    assert "s.sqlite"[0] != "p.sqlite"[0];
    var once := Launch(ids, {Write}, NoTables).Initialize(w).0;
    assert once == w.(live := was);
  }

  // ---------------------------------------------------------------------------------------------
  // Any number of starts
  // ---------------------------------------------------------------------------------------------

  /** The files after a run of starts, each with its own failures. */
  function Starts(w: World, launches: seq<Launch>): World {
    if launches == [] then w
    else launches[|launches| - 1].Initialize(Starts(w, launches[..|launches| - 1])).0
  }

  /** Nothing but the target's data or what the database held at first; the target is intact unless it
      is the safety snapshot as well. */
  predicate OnCourse(w: World, r: Request, data: string, target: Content) {
    && w.pending in {Absent, Scheduled(r)} && r.snapshotId in w.snapshots
    && w.live.data in {data, target.data}
    && (if r.snapshotId != r.safetyId then w.snapshots[r.snapshotId] == target
        else w.snapshots[r.snapshotId].data in {data, target.data})
  }

  lemma {:induction false} SwitchOnCourse(launch: Launch, w: World, r: Request, data: string, target: Content)
    requires OnCourse(w, r, data, target)
    ensures var (switched, replaced) := launch.Switch(w, r);
            && OnCourse(switched, r, data, target)
            && (replaced ==> r.safetyId in switched.snapshots && switched.snapshots[r.safetyId].data == w.live.data)
  {
  }

  lemma {:induction false} StartOnCourse(launch: Launch, w: World, r: Request, data: string, target: Content)
    requires OnCourse(w, r, data, target)
    ensures OnCourse(launch.Initialize(w).0, r, data, target)
  {
    if w.pending == Scheduled(r) {
      ApplyOnCourse(launch, w, r, data, target);
    }
  }

  lemma {:induction false} ApplyOnCourse(launch: Launch, w: World, r: Request, data: string, target: Content)
    requires OnCourse(w, r, data, target) && w.pending == Scheduled(r)
    ensures OnCourse(launch.Apply(w, r).0, r, data, target)
  {
    SwitchOnCourse(launch, w, r, data, target);
    ApplySnapshots(launch, w, r);
  }

  /** However many starts it takes and however they fail, the database holds either what it held before
      the first one or the data of the requested snapshot, and that snapshot stays intact. */
  lemma {:induction false} StartsStayOnCourse(w: World, r: Request, launches: seq<Launch>)
    requires w.pending == Scheduled(r) && r.snapshotId in w.snapshots
    ensures OnCourse(Starts(w, launches), r, w.live.data, w.snapshots[r.snapshotId])
  {
    if launches == [] {
    } else {
      StartsStayOnCourse(w, r, launches[..|launches| - 1]);
      StartOnCourse(launches[|launches| - 1], Starts(w, launches[..|launches| - 1]), r,
                    w.live.data, w.snapshots[r.snapshotId]);
    }
  }

  /** Over any number of starts, once the request is gone there is a record of it, and a recorded success
      means that the database holds the requested snapshot, whatever happened before and afterwards. */
  lemma {:induction false} RecordedSuccessHolds(w: World, r: Request, launches: seq<Launch>)
    requires w.pending == Scheduled(r) && r.snapshotId in w.snapshots && r.snapshotId != r.safetyId
    ensures Answered(Starts(w, launches), r, w.snapshots[r.snapshotId])
  {
    if launches == [] {
    } else {
      var front := launches[..|launches| - 1];
      RecordedSuccessHolds(w, r, front);
      StartsStayOnCourse(w, r, front);
    }
  }

  predicate Answered(w: World, r: Request, target: Content) {
    w.pending == Absent ==>
      && w.record.Some? && w.record.value.request == Some(r)
      && (w.record.value.status == Succeeded ==>
            w.live == target && target.digest == r.digest && target.schema == Version(CURRENT_SCHEMA))
  }

  /** Once a start has returned, later starts keep the data, whatever they do. */
  lemma {:induction false} SettledForGood(w: World, launches: seq<Launch>)
    requires w.pending == Absent
    ensures var after := Starts(w, launches);
            && after.pending == Absent && after.record == w.record && after.snapshots == w.snapshots
            && after.live.data == w.live.data
  {
    if launches == [] {
    } else {
      SettledForGood(w, launches[..|launches| - 1]);
    }
  }

  // ---------------------------------------------------------------------------------------------
  // What is retained over several starts
  // ---------------------------------------------------------------------------------------------

  /** `data` is live or in the safety snapshot of the request. */
  predicate Retains(w: World, r: Request, data: string) {
    w.live.data == data || (r.safetyId in w.snapshots && w.snapshots[r.safetyId].data == data)
  }

  /** The start applies the request to a database that no longer holds `data`, and gets as far as
      refreshing the safety snapshot from it. */
  predicate Overwrites(launch: Launch, w: World, r: Request, data: string) {
    && w.pending == Scheduled(r) && w.live.data != data
    && launch.Passes(w, r) && w.live.healthy && Refresh !in launch.faults
  }

  /** One start keeps `data` exactly when it was there and the start does not overwrite it. */
  lemma {:induction false} StartRetains(launch: Launch, w: World, r: Request, data: string, target: Content)
    requires OnCourse(w, r, data, target)
    ensures Retains(launch.Initialize(w).0, r, data) <==> Retains(w, r, data) && !Overwrites(launch, w, r, data)
  {
    if w.pending == Scheduled(r) {
      SwitchRetains(launch, w, r, data, target);
    }
  }

  lemma {:induction false} SwitchRetains(launch: Launch, w: World, r: Request, data: string, target: Content)
    requires OnCourse(w, r, data, target) && w.pending == Scheduled(r)
    ensures var (switched, replaced) := launch.Switch(w, r);
            && (Retains(switched, r, data) <==> Retains(w, r, data) && !Overwrites(launch, w, r, data))
            && (replaced ==> r.safetyId in switched.snapshots && switched.snapshots[r.safetyId].data == w.live.data)
            && (replaced && w.live.data != data ==> switched.live.data != data)
  {
  }

  /** Start number `i` overwrites `data`. */
  predicate OverwrittenAt(w: World, r: Request, data: string, launches: seq<Launch>, i: int) {
    0 <= i < |launches| && Overwrites(launches[i], Starts(w, launches[..i]), r, data)
  }

  lemma {:induction false} OverwrittenEarlier(w: World, r: Request, data: string, launches: seq<Launch>, i: int)
    requires launches != [] && i < |launches| - 1
    ensures OverwrittenAt(w, r, data, launches, i)
       <==> OverwrittenAt(w, r, data, launches[..|launches| - 1], i)
  {
    assert 0 <= i ==> launches[..|launches| - 1][..i] == launches[..i];
  }

  /** Over any number of starts, with any failures, what the database held is retained if and only if no
      start overwrites it: none finds the request still pending on a database that an earlier one
      switched, passes every check and refreshes the safety snapshot. */
  lemma {:induction false} RetainedExactly(w: World, r: Request, launches: seq<Launch>)
    requires w.pending == Scheduled(r) && r.snapshotId in w.snapshots
    ensures Retains(Starts(w, launches), r, w.live.data) <==>
            forall i :: !OverwrittenAt(w, r, w.live.data, launches, i)
  {
    if launches == [] {
    } else {
      var n := |launches| - 1;
      RetainedExactly(w, r, launches[..n]);
      StartsStayOnCourse(w, r, launches[..n]);
      StartRetains(launches[n], Starts(w, launches[..n]), r, w.live.data, w.snapshots[r.snapshotId]);
      forall i | i < n
        ensures OverwrittenAt(w, r, w.live.data, launches, i) <==> OverwrittenAt(w, r, w.live.data, launches[..n], i)
      {
        OverwrittenEarlier(w, r, w.live.data, launches, i);
      }
      assert OverwrittenAt(w, r, w.live.data, launches, n) <==>
             Overwrites(launches[n], Starts(w, launches[..n]), r, w.live.data);
    }
  }

  /** For two starts: the content is lost if and only if the first one switches the database, does not
      bring it back, and cannot finish its record or remove the request, and the second one passes the
      checks and refreshes the safety snapshot. */
  lemma {:induction false} TwoStartsLoseExactly(w: World, r: Request, a: Launch, b: Launch)
    requires w.pending == Scheduled(r) && r.snapshotId in w.snapshots && r.snapshotId != r.safetyId
    requires w.snapshots[r.snapshotId].data != w.live.data
    ensures !Retains(Starts(w, [a, b]), r, w.live.data) <==>
            && a.Switch(w, r).1
            && (Restored !in a.faults || ReplaceBack in a.faults)
            && (Write in a.faults || Remove in a.faults)
            && b.Passes(w, r) && Refresh !in b.faults
  {
    var once := a.Initialize(w).0;
    assert [a, b][..1] == [a] && [a][..0] == [];
    assert Starts(w, [a]) == a.Initialize(Starts(w, [])).0 == once;
    var target := w.snapshots[r.snapshotId];
    StartRetains(a, w, r, w.live.data, target);
    StartOnCourse(a, w, r, w.live.data, target);
    StartRetains(b, once, r, w.live.data, target);
    FirstStartSwitched(w, r, a);
    assert once.pending == Scheduled(r) ==> (b.Passes(once, r) <==> b.Passes(w, r));
  }

  /** The first start leaves the request pending over a switched database. */
  lemma {:induction false} FirstStartSwitched(w: World, r: Request, a: Launch)
    requires w.pending == Scheduled(r) && r.snapshotId in w.snapshots && r.snapshotId != r.safetyId
    requires w.snapshots[r.snapshotId].data != w.live.data
    ensures var once := a.Initialize(w).0;
            && (once.pending == Scheduled(r) && once.live.data != w.live.data <==>
                  && a.Switch(w, r).1
                  && (Restored !in a.faults || ReplaceBack in a.faults)
                  && (Write in a.faults || Remove in a.faults))
            && once.snapshots.Keys == w.snapshots.Keys
            && once.snapshots[r.snapshotId] == w.snapshots[r.snapshotId]
            && (a.Switch(w, r).1 && once.live.data != w.live.data ==> once.live.healthy)
  {
  }
}
