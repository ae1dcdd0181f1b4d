/** The analyze protocol: service calls, the worker's phases, crashes and restart recovery, as steps of
    one system whose every run is considered. */
module AnalyzeProtocol {
  import opened Prelude
  import opened AnalyzeTasks
  import Whitespace

  /** Where the worker stands in the task it holds: each phase ends with the check or the transaction named
      beside it. A service call may come between a check and the transaction that follows it. */
  datatype Phase =
    | Start                         // checks for cancellation
    | Checked                       // reads the settings, marks the audio running
    | Calling                       // waits for the model, stores the raw reply
    | Answered                      // checks for cancellation, parses the reply
    | Parsed(description: string)   // checks for cancellation
    | Cleared(description: string)  // stores description and output
    | Committed                     // marks the task done
    | Canceling                     // finalizes the cancellation
    | Failing                       // marks the task failed, or canceled when that was requested

  datatype Worker = Idle | Selected(task: nat) | Holds(task: nat, phase: Phase) | Down

  /** What a reader of the log sees: tasks put in the queue by an enqueue or a retry, claims, cancel requests
      for running tasks, audio items marked running, outputs written, and tasks that reached a final status. */
  datatype Effect =
    | Queued(task: nat)
    | Claimed(task: nat)
    | Requested(task: nat)
    | Began(task: nat)
    | Wrote(task: nat, description: string)
    | Ended(task: nat, audio: nat, status: Status)

  datatype System = System(db: Db, worker: Worker, log: seq<Effect>)

  datatype Event =
    | EnqueueCall(audio: nat, configured: bool)
    | RetryCall(task: nat, configured: bool)
    | CancelCall(task: nat)
    | Select
    | Claim
    | Check
    | Begin(ok: bool)
    | Reply(ok: bool)
    | Parse(description: Option<string>)
    | Commit(ok: bool)
    | Finish
    | Crash
    | Restart

  /** The description as stored: stripped, cut to 800 characters, stripped again. */
  function Clean(raw: string): string {
    var d := Whitespace.Strip(raw);
    if |d| > 800 then Whitespace.Strip(d[..800]) else d
  }

  function AfterCall(s: System, r: Result<Db, Error>): System {
    if r.Ok? then s.(db := r.value) else s
  }

  /** An accepted enqueue or retry puts task `t` in the queue. */
  function QueueStep(s: System, r: Result<Db, Error>, t: nat): System {
    if r.Ok? then s.(db := r.value, log := s.log + [Queued(t)]) else s
  }

  function CancelStep(s: System, t: nat): System {
    var next := AfterCall(s, s.db.Cancel(t));
    if t < |s.db.tasks| && s.db.tasks[t].status == Pending
    then next.(log := s.log + [Ended(t, s.db.tasks[t].audio, Canceled)])
    else if t < |s.db.tasks| && s.db.tasks[t].status == Running then next.(log := s.log + [Requested(t)])
    else next
  }

  function SelectStep(s: System): System {
    var t := s.db.FirstPending(0);
    if s.worker == Idle && t.Some? then s.(worker := Selected(t.value)) else s
  }

  function ClaimStep(s: System): System {
    if !s.worker.Selected? then s else
    var t := s.worker.task;
    if t < |s.db.tasks| && s.db.tasks[t].status == Pending
    then System(s.db.Claim(t), Holds(t, Start), s.log + [Claimed(t)])
    else s.(worker := Idle)
  }

  predicate Holding(s: System) {
    s.worker.Holds? && s.worker.task < |s.db.tasks| && s.db.tasks[s.worker.task].audio < |s.db.audios|
  }

  function InPhase(s: System, phase: Phase): System
    requires s.worker.Holds?
  {
    s.(worker := Holds(s.worker.task, phase))
  }

  /** One check or transaction of the worker on the task it holds. */
  function WorkStep(s: System, e: Event): System
    requires Holding(s)
  {
    var t := s.worker.task;
    match (s.worker.phase, e)
    case (Start, Check) => InPhase(s, if s.db.CancelSeen(t) then Canceling else Checked)
    case (Checked, Begin(ok)) =>
      if !ok then InPhase(s, Failing) else System(s.db.BeginAnalysis(t), Holds(t, Calling), s.log + [Began(t)])
    case (Calling, Reply(ok)) =>
      if !ok then InPhase(s, Failing) else InPhase(s, Answered).(db := s.db.SaveRaw(t))
    case (Answered, Parse(raw)) =>
      if s.db.CancelSeen(t) then InPhase(s, Canceling)
      else if raw.None? || raw.value == "" then InPhase(s, Failing)
      else InPhase(s, Parsed(Clean(raw.value)))
    case (Parsed(d), Check) => InPhase(s, if s.db.CancelSeen(t) then Canceling else Cleared(d))
    case (Cleared(d), Commit(ok)) =>
      if !ok then InPhase(s, Failing)
      else System(s.db.SaveOutput(t, d), Holds(t, Committed), s.log + [Wrote(t, d)])
    case (Committed, Finish) => Ending(s, s.db.MarkDone(t))
    case (Canceling, Finish) => Ending(s, s.db.FinalizeCanceled(t))
    case (Failing, Finish) => Ending(s, s.db.MarkFailedOrCanceled(t))
    case _ => s
  }

  /** The worker lets go; a task that was active and no longer is has ended. */
  function Ending(s: System, db: Db): System
    requires Holding(s)
  {
    var t := s.worker.task;
    var ended := s.db.Active(t) && t < |db.tasks| && !db.Active(t);
    System(db, Idle, if ended then s.log + [Ended(t, db.tasks[t].audio, db.tasks[t].status)] else s.log)
  }

  /** What recovery of the first `n` tasks ends. */
  function Recovered(db: Db, n: nat): seq<Effect>
    requires n <= |db.tasks|
  {
    if n == 0 then [] else
    var t := n - 1;
    if IsInterrupted(db.tasks[t].status)
    then Recovered(db, t) + [Ended(t, db.tasks[t].audio, db.Recover(t).RecoveredStatus(t))]
    else Recovered(db, t)
  }

  function Step(s: System, e: Event): System {
    match e
    case EnqueueCall(a, configured) => QueueStep(s, s.db.Enqueue(a, configured), |s.db.tasks|)
    case RetryCall(t, configured) => QueueStep(s, s.db.Retry(t, configured), t)
    case CancelCall(t) => CancelStep(s, t)
    case Select => SelectStep(s)
    case Claim => ClaimStep(s)
    case Crash => s.(worker := Down)
    case Restart =>
      var n := |s.db.tasks|;
      if s.worker == Down then System(s.db.Recover(n), Idle, s.log + Recovered(s.db, n)) else s
    case _ => if Holding(s) then WorkStep(s, e) else s
  }

  /** The state after a run from a library of `audios` items that were never analyzed. */
  function Run(audios: seq<string>, events: seq<Event>): System {
    if events == [] then
      System(Db(seq(|audios|, i requires 0 <= i < |audios| => Audio(Untouched, audios[i])), []), Idle, [])
    else
      Step(Run(audios, events[..|events| - 1]), events[|events| - 1])
  }

  // ---------------------------------------------------------------------------------------------
  // Reading the log
  // ---------------------------------------------------------------------------------------------

  /** The final status of the task of audio item `a` that ended last. */
  function LastEnded(log: seq<Effect>, a: nat): AudioStatus {
    if log == [] then Untouched else
    var last := log[|log| - 1];
    if last.Ended? && last.audio == a then Is(last.status) else LastEnded(log[..|log| - 1], a)
  }

  /** What task `t` has written since it was last claimed. */
  function CurrentAttempt(log: seq<Effect>, t: nat): Option<string> {
    if log == [] then None else
    var last := log[|log| - 1];
    if last == Claimed(t) then None
    else if last.Wrote? && last.task == t then Some(last.description)
    else CurrentAttempt(log[..|log| - 1], t)
  }

  /** The status that the last thing logged about task `t` gave its audio item. */
  function Shown(log: seq<Effect>, t: nat): Status {
    if log == [] then Pending else
    var last := log[|log| - 1];
    if last.task != t || last.Ended? then Shown(log[..|log| - 1], t)
    else match last
      case Queued(_) => Pending
      case Claimed(_) => Pending
      case Requested(_) => CancelRequested
      case Began(_) => Running
      case Wrote(_, _) => Done
  }

  lemma LogGrows(log: seq<Effect>, e: Effect)
    ensures (log + [e])[..|log|] == log && (log + [e])[|log|] == e
  {
  }

  // ---------------------------------------------------------------------------------------------
  // The invariant
  // ---------------------------------------------------------------------------------------------

  /** At most one active task per audio item. */
  ghost predicate OneActive(db: Db) {
    forall t: nat, u: nat ::
      db.Active(t) && db.Active(u) && db.tasks[t].audio == db.tasks[u].audio ==> t == u
  }

  /** What an active task's row says about its audio item. */
  predicate RowAgrees(db: Db, t: nat)
    requires t < |db.tasks|
  {
    var task := db.tasks[t];
    && task.audio < |db.audios|
    && var audio := db.audios[task.audio];
    match task.status
    case Pending => task.output == NoOutput && audio.status == Is(Pending)
    case Running => audio.status == Is(Done) ==> task.output == Full(audio.description)
    case CancelRequested => audio.status == Is(Done) ==> task.output == Full(audio.description)
    case _ => true
  }

  ghost predicate RowsAgree(db: Db) {
    forall t: nat :: t < |db.tasks| ==> RowAgrees(db, t)
  }

  /** A task is running, or asked to cancel, exactly when the worker holds it or died holding it. */
  ghost predicate WorkerAgrees(db: Db, w: Worker) {
    && (w.Holds? ==> db.Interrupted(w.task) && (w.phase == Committed <==> db.tasks[w.task].output.Full?))
    && (w.Holds? && w.phase == Canceling ==> db.tasks[w.task].status == CancelRequested)
    && (w.Holds? && (w.phase == Answered || w.phase.Parsed? || w.phase.Cleared?) ==> db.tasks[w.task].output == Raw)
    && (w != Down ==> forall t: nat :: db.Interrupted(t) ==> w.Holds? && w.task == t)
    && forall t: nat, u: nat :: db.Interrupted(t) && db.Interrupted(u) ==> t == u
  }

  /** An audio item without an active task has the status its last task ended with. */
  ghost predicate AtRest(db: Db, log: seq<Effect>) {
    forall a: nat :: a < |db.audios| && !db.HasActive(a, -1) ==> db.audios[a].status == LastEnded(log, a)
  }

  /** The stored output of an interrupted task is what its current attempt wrote. */
  ghost predicate AttemptsAgree(db: Db, log: seq<Effect>) {
    forall t: nat :: db.Interrupted(t) ==>
      CurrentAttempt(log, t) ==
      if db.tasks[t].output.Full? then Some(db.tasks[t].output.description) else None
  }

  /** A task that wrote a description is done, or still holds that description. */
  predicate Settled(db: Db, t: nat, d: string) {
    && t < |db.tasks|
    && (db.tasks[t].status == Done || (db.Interrupted(t) && db.tasks[t].output == Full(d)))
  }

  ghost predicate WritesSettled(db: Db, log: seq<Effect>) {
    forall k :: 0 <= k < |log| && log[k].Wrote? && log[k].description != "" ==>
      Settled(db, log[k].task, log[k].description)
  }

  /** Once a task has written a description it only ever ends as done, and is never claimed again. */
  ghost predicate DoneWins(log: seq<Effect>) {
    forall k, m :: 0 <= k < m < |log| && log[k].Wrote? && log[k].description != "" ==>
      && log[m] != Claimed(log[k].task)
      && (log[m].Ended? && log[m].task == log[k].task ==> log[m].status == Done)
  }

  ghost predicate EndsAreFinal(log: seq<Effect>) {
    forall k :: 0 <= k < |log| && log[k].Ended? ==> !IsActive(log[k].status)
  }

  ghost predicate LogAgrees(db: Db, log: seq<Effect>) {
    AtRest(db, log) && AttemptsAgree(db, log) && WritesSettled(db, log) && DoneWins(log) && EndsAreFinal(log)
  }

  /** The audio item of an interrupted task shows the last thing that happened to the task. */
  ghost predicate ShowsLast(db: Db, log: seq<Effect>) {
    forall t: nat :: db.Interrupted(t) ==>
      db.tasks[t].audio < |db.audios| && db.audios[db.tasks[t].audio].status == Is(Shown(log, t))
  }

  ghost predicate Consistent(s: System) {
    && OneActive(s.db) && RowsAgree(s.db) && WorkerAgrees(s.db, s.worker)
    && LogAgrees(s.db, s.log) && ShowsLast(s.db, s.log)
  }

  // ---------------------------------------------------------------------------------------------
  // Every step keeps it
  // ---------------------------------------------------------------------------------------------

  /** `after` differs from `before` in task `t` and that task's audio item only. */
  ghost predicate OnlyRow(before: Db, after: Db, t: nat) {
    && t < |after.tasks| && |before.audios| == |after.audios|
    && (|after.tasks| == |before.tasks| || (t == |before.tasks| && |after.tasks| == t + 1))
    && (t < |before.tasks| ==> after.tasks[t].audio == before.tasks[t].audio)
    && (forall u: nat :: u < |before.tasks| && u != t ==> after.tasks[u] == before.tasks[u])
    && (forall a: nat :: a < |before.audios| && a != after.tasks[t].audio ==> after.audios[a] == before.audios[a])
  }

  /** No other task is active on the audio item of task `t`. */
  ghost predicate Alone(db: Db, t: nat)
    requires t < |db.tasks|
  {
    forall u: nat :: db.Active(u) && db.tasks[u].audio == db.tasks[t].audio ==> u == t
  }

  lemma {:induction false} RowChange(before: Db, after: Db, t: nat)
    requires OneActive(before) && RowsAgree(before) && OnlyRow(before, after, t)
    requires Alone(after, t) && RowAgrees(after, t)
    ensures OneActive(after) && RowsAgree(after)
  {
    forall u: nat | u < |after.tasks|
      ensures RowAgrees(after, u)
    {
      if u != t {
        assert RowAgrees(before, u);
        assert after.Active(u) ==> after.tasks[u].audio != after.tasks[t].audio;
      }
    }
    forall u: nat, v: nat | after.Active(u) && after.Active(v) && after.tasks[u].audio == after.tasks[v].audio
      ensures u == v
    {
      if u != t && v != t {
        assert before.Active(u) && before.Active(v);
      }
    }
  }

  lemma {:induction false} RestElsewhere(before: Db, after: Db, t: nat, log: seq<Effect>)
    requires AtRest(before, log) && OnlyRow(before, after, t)
    ensures forall a: nat :: a < |after.audios| && a != after.tasks[t].audio && !after.HasActive(a, -1) ==>
              after.audios[a].status == LastEnded(log, a)
  {
    forall a: nat | a < |after.audios| && a != after.tasks[t].audio && !after.HasActive(a, -1)
      ensures after.audios[a].status == LastEnded(log, a)
    {
      forall u: nat | u < |before.tasks| && before.Active(u) && before.tasks[u].audio == a
        ensures false
      {
        assert after.Active(u);
      }
    }
  }

  /** A change after which the task is still active adds nothing to the log. */
  lemma {:induction false} QuietChange(before: Db, after: Db, t: nat, log: seq<Effect>)
    requires LogAgrees(before, log) && OnlyRow(before, after, t) && after.Active(t)
    requires after.Interrupted(t) ==> before.Interrupted(t)
    requires after.Interrupted(t) ==> before.tasks[t].output == after.tasks[t].output ||
                                      (!before.tasks[t].output.Full? && !after.tasks[t].output.Full?)
    requires before.Interrupted(t) ==> after.Interrupted(t)
    requires t < |before.tasks| ==> before.tasks[t].status != Done
    ensures LogAgrees(after, log)
  {
    RestElsewhere(before, after, t, log);
    assert after.HasActive(after.tasks[t].audio, -1);
    forall u: nat | after.Interrupted(u)
      ensures CurrentAttempt(log, u) ==
              if after.tasks[u].output.Full? then Some(after.tasks[u].output.description) else None
    {
      assert before.Interrupted(u);
    }
    forall k | 0 <= k < |log| && log[k].Wrote? && log[k].description != ""
      ensures Settled(after, log[k].task, log[k].description)
    {
      assert Settled(before, log[k].task, log[k].description);
    }
  }

  /** Logging a queued task, a cancel request or a start changes nothing else that the log says. */
  lemma {:induction false} NoteKeeps(db: Db, log: seq<Effect>, e: Effect)
    requires LogAgrees(db, log) && (e.Queued? || e.Requested? || e.Began?)
    ensures LogAgrees(db, log + [e])
  {
    var log' := log + [e];
    LogGrows(log, e);
    forall k | 0 <= k < |log'| && log'[k].Wrote? && log'[k].description != ""
      ensures Settled(db, log'[k].task, log'[k].description)
    {
      assert log'[k] == log[k];
    }
    forall k, m | 0 <= k < m < |log'| && log'[k].Wrote? && log'[k].description != ""
      ensures log'[m] != Claimed(log'[k].task)
      ensures log'[m].Ended? && log'[m].task == log'[k].task ==> log'[m].status == Done
    {
      assert log'[k] == log[k];
    }
  }

  /** An active task ends: with a written description it must end as done. */
  lemma {:induction false} EndChange(db: Db, t: nat, st: Status, log: seq<Effect>)
    requires OneActive(db) && RowsAgree(db) && LogAgrees(db, log)
    requires db.Active(t) && !IsActive(st)
    requires db.Interrupted(t) && db.tasks[t].output.Full? && db.tasks[t].output.description != "" ==> st == Done
    ensures var after := db.WithStatus(t, st);
            OneActive(after) && RowsAgree(after) && LogAgrees(after, log + [Ended(t, db.tasks[t].audio, st)])
  {
    var after := db.WithStatus(t, st);
    var e := Ended(t, db.tasks[t].audio, st);
    var log' := log + [e];
    LogGrows(log, e);
    assert RowAgrees(db, t);
    assert forall u: nat :: after.Active(u) ==> db.Active(u);
    RowChange(db, after, t);
    RestElsewhere(db, after, t, log);
    forall a: nat | a < |after.audios| && !after.HasActive(a, -1)
      ensures after.audios[a].status == LastEnded(log', a)
    {
    }
    forall u: nat | after.Interrupted(u)
      ensures CurrentAttempt(log', u) ==
              if after.tasks[u].output.Full? then Some(after.tasks[u].output.description) else None
    {
      assert db.Interrupted(u);
    }
    forall k | 0 <= k < |log'| && log'[k].Wrote? && log'[k].description != ""
      ensures Settled(after, log'[k].task, log'[k].description)
    {
      assert log'[k] == log[k];
      assert Settled(db, log[k].task, log[k].description);
    }
    forall k, m | 0 <= k < m < |log'| && log'[k].Wrote? && log'[k].description != ""
      ensures log'[m] != Claimed(log'[k].task)
      ensures log'[m].Ended? && log'[m].task == log'[k].task ==> log'[m].status == Done
    {
      assert log'[k] == log[k];
      assert Settled(db, log[k].task, log[k].description);
    }
  }

  /** The task selected is the oldest pending one, and there is none exactly when no task is pending. */
  lemma {:induction false} FirstPendingIsOldest(db: Db, n: nat)
    requires n <= |db.tasks|
    ensures var t := db.FirstPending(n);
            && (t.Some? ==> n <= t.value < |db.tasks| && db.tasks[t.value].status == Pending)
            && (forall k :: n <= k < (if t.Some? then t.value else |db.tasks|) ==> db.tasks[k].status != Pending)
    decreases |db.tasks| - n
  {
    if n < |db.tasks| && db.tasks[n].status != Pending {
      FirstPendingIsOldest(db, n + 1);
    }
  }

  lemma EnqueueKeeps(s: System, a: nat, configured: bool)
    requires Consistent(s)
    ensures Consistent(Step(s, EnqueueCall(a, configured)))
  {
    var r := s.db.Enqueue(a, configured);
    if r.Ok? {
      var t := |s.db.tasks|;
      assert forall u: nat :: r.value.Active(u) && u != t ==> s.db.Active(u);
      RowChange(s.db, r.value, t);
      QuietChange(s.db, r.value, t, s.log);
      NoteKeeps(r.value, s.log, Queued(t));
      LogGrows(s.log, Queued(t));
      assert forall u: nat :: r.value.Interrupted(u) <==> s.db.Interrupted(u);
    }
  }

  lemma RetryKeeps(s: System, t: nat, configured: bool)
    requires Consistent(s)
    ensures Consistent(Step(s, RetryCall(t, configured)))
  {
    var r := s.db.Retry(t, configured);
    if r.Ok? {
      assert RowAgrees(s.db, t);
      assert forall u: nat :: r.value.Active(u) && u != t ==> s.db.Active(u);
      RowChange(s.db, r.value, t);
      QuietChange(s.db, r.value, t, s.log);
      NoteKeeps(r.value, s.log, Queued(t));
      LogGrows(s.log, Queued(t));
      assert forall u: nat :: r.value.Interrupted(u) <==> s.db.Interrupted(u);
    }
  }

  lemma CancelKeeps(s: System, t: nat)
    requires Consistent(s)
    ensures Consistent(Step(s, CancelCall(t)))
  {
    var r := s.db.Cancel(t);
    if r.Ok? {
      assert RowAgrees(s.db, t);
      var after := r.value;
      if s.db.tasks[t].status == Pending {
        EndChange(s.db, t, Canceled, s.log);
        assert forall u: nat :: after.Interrupted(u) <==> s.db.Interrupted(u);
      } else if s.db.tasks[t].status == Running {
        assert forall u: nat :: after.Active(u) <==> s.db.Active(u);
        RowChange(s.db, after, t);
        QuietChange(s.db, after, t, s.log);
        NoteKeeps(after, s.log, Requested(t));
        LogGrows(s.log, Requested(t));
        assert forall u: nat :: after.Interrupted(u) <==> s.db.Interrupted(u);
      }
    }
  }

  /** A pending task has written nothing that a claim could undo. */
  lemma ClaimLogged(s: System, t: nat)
    requires Consistent(s) && t < |s.db.tasks| && s.db.tasks[t].status == Pending
    ensures WritesSettled(s.db.Claim(t), s.log + [Claimed(t)]) && DoneWins(s.log + [Claimed(t)])
  {
    var after := s.db.Claim(t);
    var log' := s.log + [Claimed(t)];
    forall k | 0 <= k < |log'| && log'[k].Wrote? && log'[k].description != ""
      ensures Settled(after, log'[k].task, log'[k].description) && log'[k].task != t
    {
      assert log'[k] == s.log[k];
      assert Settled(s.db, s.log[k].task, s.log[k].description);
    }
    forall k, m | 0 <= k < m < |log'| && log'[k].Wrote? && log'[k].description != ""
      ensures log'[m] != Claimed(log'[k].task)
      ensures log'[m].Ended? && log'[m].task == log'[k].task ==> log'[m].status == Done
    {
      assert log'[k] == s.log[k];
    }
  }

  lemma ClaimKeeps(s: System)
    requires Consistent(s)
    ensures Consistent(Step(s, Claim))
  {
    if s.worker.Selected? && s.worker.task < |s.db.tasks| && s.db.tasks[s.worker.task].status == Pending {
      var t := s.worker.task;
      var after := s.db.Claim(t);
      LogGrows(s.log, Claimed(t));
      assert RowAgrees(s.db, t);
      assert forall u: nat :: after.Active(u) <==> s.db.Active(u);
      RowChange(s.db, after, t);
      RestElsewhere(s.db, after, t, s.log);
      assert after.Active(t);
      assert forall u: nat :: after.Interrupted(u) ==> u == t || s.db.Interrupted(u);
      ClaimLogged(s, t);
    }
  }

  /** The worker's changes to its task while the task stays interrupted. */
  lemma WorkChange(s: System, after: Db)
    requires Consistent(s) && Holding(s)
    requires OnlyRow(s.db, after, s.worker.task) && RowAgrees(after, s.worker.task)
    requires |after.tasks| == |s.db.tasks| && after.tasks[s.worker.task].status == s.db.tasks[s.worker.task].status
    ensures OneActive(after) && RowsAgree(after)
    ensures forall u: nat :: after.Interrupted(u) <==> s.db.Interrupted(u)
  {
    assert forall u: nat :: after.Active(u) <==> s.db.Active(u);
    RowChange(s.db, after, s.worker.task);
  }

  lemma BeginKeeps(s: System, ok: bool)
    requires Consistent(s)
    ensures Consistent(Step(s, Begin(ok)))
  {
    if Holding(s) && s.worker.phase == Checked && ok {
      var t := s.worker.task;
      var after := s.db.BeginAnalysis(t);
      assert RowAgrees(s.db, t);
      WorkChange(s, after);
      QuietChange(s.db, after, t, s.log);
      NoteKeeps(after, s.log, Began(t));
      LogGrows(s.log, Began(t));
    }
  }

  lemma ReplyKeeps(s: System, ok: bool)
    requires Consistent(s)
    ensures Consistent(Step(s, Reply(ok)))
  {
    if Holding(s) && s.worker.phase == Calling && ok {
      var t := s.worker.task;
      assert RowAgrees(s.db, t);
      WorkChange(s, s.db.SaveRaw(t));
      QuietChange(s.db, s.db.SaveRaw(t), t, s.log);
    }
  }

  lemma CommitKeeps(s: System, ok: bool)
    requires Consistent(s)
    ensures Consistent(Step(s, Commit(ok)))
  {
    if Holding(s) && s.worker.phase.Cleared? && ok {
      var t, d := s.worker.task, s.worker.phase.description;
      var after := s.db.SaveOutput(t, d);
      var log' := s.log + [Wrote(t, d)];
      LogGrows(s.log, Wrote(t, d));
      assert RowAgrees(s.db, t);
      WorkChange(s, after);
      RestElsewhere(s.db, after, t, s.log);
      assert after.Active(t);
      forall k | 0 <= k < |log'| && log'[k].Wrote? && log'[k].description != ""
        ensures Settled(after, log'[k].task, log'[k].description)
      {
        if k < |s.log| {
          assert log'[k] == s.log[k];
          assert Settled(s.db, s.log[k].task, s.log[k].description);
        }
      }
      forall k, m | 0 <= k < m < |log'| && log'[k].Wrote? && log'[k].description != ""
        ensures log'[m] != Claimed(log'[k].task)
        ensures log'[m].Ended? && log'[m].task == log'[k].task ==> log'[m].status == Done
      {
        assert log'[k] == s.log[k];
      }
    }
  }

  lemma FinishKeeps(s: System)
    requires Consistent(s)
    ensures Consistent(Step(s, Finish))
  {
    if Holding(s) && (s.worker.phase == Committed || s.worker.phase == Canceling || s.worker.phase == Failing) {
      var t := s.worker.task;
      var st := if s.worker.phase == Committed then Done
                else if s.worker.phase == Canceling || s.db.CancelSeen(t) then Canceled else Failed;
      assert s.db.Interrupted(t) && s.db.Active(t);
      EndChange(s.db, t, st, s.log);
      var after := s.db.WithStatus(t, st);
      assert Step(s, Finish) == System(after, Idle, s.log + [Ended(t, s.db.tasks[t].audio, st)]);
      assert forall u: nat :: after.Interrupted(u) ==> s.db.Interrupted(u) && u != t;
    }
  }

  /** Recovery ends the one interrupted task there can be. */
  lemma {:induction false} RecoverOne(db: Db, n: nat, t: nat)
    requires n <= |db.tasks| && t < |db.tasks| && db.Interrupted(t)
    requires forall u: nat :: db.Interrupted(u) ==> u == t
    ensures var st := db.RecoveredStatus(t);
            && db.Recover(n) == (if t < n then db.WithStatus(t, st) else db)
            && Recovered(db, n) == if t < n then [Ended(t, db.tasks[t].audio, st)] else []
  {
    if n == 0 {
    } else {
      RecoverOne(db, n - 1, t);
      assert IsInterrupted(db.tasks[n - 1].status) <==> db.Interrupted(n - 1);
    }
  }

  lemma {:induction false} RecoverNone(db: Db, n: nat)
    requires n <= |db.tasks| && forall u: nat :: !db.Interrupted(u)
    ensures db.Recover(n) == db && Recovered(db, n) == []
  {
    if n == 0 {
    } else {
      RecoverNone(db, n - 1);
      assert !db.Interrupted(n - 1);
    }
  }

  /** Recovery marks an interrupted task done exactly when its current attempt wrote a description. */
  lemma RecoveredExactly(s: System, t: nat)
    requires Consistent(s) && s.db.Interrupted(t)
    ensures var wrote := CurrentAttempt(s.log, t);
            s.db.RecoveredStatus(t) ==
            if wrote.Some? && wrote.value != "" then Done
            else if s.db.tasks[t].status == CancelRequested then Canceled
            else Failed
  {
    assert RowAgrees(s.db, t);
  }

  lemma RestartKeeps(s: System)
    requires Consistent(s)
    ensures Consistent(Step(s, Restart))
  {
    if s.worker == Down {
      var n := |s.db.tasks|;
      if t: nat :| s.db.Interrupted(t) {
        RecoverOne(s.db, n, t);
        RecoveredExactly(s, t);
        var st := s.db.RecoveredStatus(t);
        EndChange(s.db, t, st, s.log);
        assert forall u: nat :: s.db.WithStatus(t, st).Interrupted(u) ==> s.db.Interrupted(u) && u != t;
      } else {
        RecoverNone(s.db, n);
        assert s.log + [] == s.log;
      }
    }
  }

  lemma StepKeeps(s: System, e: Event)
    requires Consistent(s)
    ensures Consistent(Step(s, e))
  {
    match e
    case EnqueueCall(a, configured) => EnqueueKeeps(s, a, configured);
    case RetryCall(t, configured) => RetryKeeps(s, t, configured);
    case CancelCall(t) => CancelKeeps(s, t);
    case Claim => ClaimKeeps(s);
    case Begin(ok) => BeginKeeps(s, ok);
    case Reply(ok) => ReplyKeeps(s, ok);
    case Commit(ok) => CommitKeeps(s, ok);
    case Finish => FinishKeeps(s);
    case Restart => RestartKeeps(s);
    case _ =>
  }

  lemma {:induction false} RunConsistent(audios: seq<string>, events: seq<Event>)
    ensures Consistent(Run(audios, events))
  {
    if events == [] {
    } else {
      RunConsistent(audios, events[..|events| - 1]);
      StepKeeps(Run(audios, events[..|events| - 1]), events[|events| - 1]);
    }
  }
}
