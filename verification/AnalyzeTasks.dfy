/** The rows of analyze tasks and their audio items, and every transaction that changes them. */
module AnalyzeTasks {
  import opened Prelude

  datatype Status = Pending | Running | CancelRequested | Done | Failed | Canceled

  /** The AI status of an audio item: never analyzed, or a task status. */
  datatype AudioStatus = Untouched | Is(status: Status)

  datatype Output = NoOutput | Raw | Full(description: string)

  /** Rows are numbered by their place in the table; task ids grow with creation time. */
  datatype Audio = Audio(status: AudioStatus, description: string)

  datatype Task = Task(audio: nat, status: Status, output: Output, retries: nat)

  datatype Error = NotFound | AlreadyActive | NotConfigured | NotRetryable | NotCancelable

  predicate IsActive(s: Status) {
    s == Pending || s == Running || s == CancelRequested
  }

  predicate IsInterrupted(s: Status) {
    s == Running || s == CancelRequested
  }

  datatype Db = Db(audios: seq<Audio>, tasks: seq<Task>) {

    predicate Active(t: nat) {
      t < |tasks| && IsActive(tasks[t].status)
    }

    predicate Interrupted(t: nat) {
      t < |tasks| && IsInterrupted(tasks[t].status)
    }

    /** An active task of the audio item, other than `except`. */
    predicate HasActive(a: nat, except: int) {
      exists t: nat :: t < |tasks| && Active(t) && tasks[t].audio == a && t != except
    }

    function WithTask(t: nat, task: Task): Db
      requires t < |tasks|
    {
      this.(tasks := tasks[t := task])
    }

    function WithAudioStatus(a: nat, s: Status): Db {
      if a < |audios| then this.(audios := audios[a := audios[a].(status := Is(s))]) else this
    }

    /** A task and its audio item take the same status in one transaction. */
    function WithStatus(t: nat, s: Status): Db
      requires t < |tasks|
    {
      WithTask(t, tasks[t].(status := s)).WithAudioStatus(tasks[t].audio, s)
    }

    // -------------------------------------------------------------------------------------------
    // Service calls
    // -------------------------------------------------------------------------------------------

    function Enqueue(a: nat, configured: bool): Result<Db, Error> {
      if a >= |audios| then Err(NotFound)
      else if audios[a].status.Is? && IsActive(audios[a].status.status) then Err(AlreadyActive)
      else if HasActive(a, -1) then Err(AlreadyActive)
      else if !configured then Err(NotConfigured)
      else Ok(Db(audios, tasks + [Task(a, Pending, NoOutput, 0)]).WithAudioStatus(a, Pending))
    }

    function Retry(t: nat, configured: bool): Result<Db, Error> {
      if t >= |tasks| then Err(NotFound)
      else if tasks[t].status != Failed && tasks[t].status != Canceled then Err(NotRetryable)
      else if HasActive(tasks[t].audio, t) then Err(AlreadyActive)
      else if !configured then Err(NotConfigured)
      else Ok(WithTask(t, Task(tasks[t].audio, Pending, NoOutput, tasks[t].retries + 1))
              .WithAudioStatus(tasks[t].audio, Pending))
    }

    function Cancel(t: nat): Result<Db, Error> {
      if t >= |tasks| then Err(NotFound)
      else if !IsActive(tasks[t].status) then Err(NotCancelable)
      else if tasks[t].status == CancelRequested then Ok(this)
      else if tasks[t].status == Running then Ok(WithStatus(t, CancelRequested))
      else Ok(WithStatus(t, Canceled))
    }

    // -------------------------------------------------------------------------------------------
    // Worker transactions
    // -------------------------------------------------------------------------------------------

    /** The oldest pending task, from `n` on. */
    function FirstPending(n: nat): Option<nat>
      decreases |tasks| - n
    {
      if n >= |tasks| then None
      else if tasks[n].status == Pending then Some(n)
      else FirstPending(n + 1)
    }

    /** The conditional update of a claim; it has no effect on a task that is no longer pending. */
    function Claim(t: nat): Db {
      if t < |tasks| && tasks[t].status == Pending then WithTask(t, tasks[t].(status := Running)) else this
    }

    predicate CancelSeen(t: nat) {
      t < |tasks| && (tasks[t].status == CancelRequested || tasks[t].status == Canceled)
    }

    function BeginAnalysis(t: nat): Db
      requires t < |tasks|
    {
      WithAudioStatus(tasks[t].audio, Running)
    }

    function SaveRaw(t: nat): Db
      requires t < |tasks|
    {
      WithTask(t, tasks[t].(output := Raw))
    }

    function SaveOutput(t: nat, description: string): Db
      requires t < |tasks| && tasks[t].audio < |audios|
    {
      var a := tasks[t].audio;
      Db(audios[a := Audio(Is(Done), description)], tasks[t := tasks[t].(output := Full(description))])
    }

    function MarkDone(t: nat): Db
      requires t < |tasks|
    {
      if tasks[t].status == Failed || tasks[t].status == Canceled then this else WithStatus(t, Done)
    }

    function FinalizeCanceled(t: nat): Db
      requires t < |tasks|
    {
      WithStatus(t, Canceled)
    }

    function MarkFailedOrCanceled(t: nat): Db
      requires t < |tasks|
    {
      if CancelSeen(t) then FinalizeCanceled(t)
      else if !IsActive(tasks[t].status) then this
      else WithStatus(t, Failed)
    }

    // -------------------------------------------------------------------------------------------
    // Restart recovery
    // -------------------------------------------------------------------------------------------

    /** An analysis whose result is stored: in the audio item, or in the task's own output. */
    predicate HasCompletedOutput(t: nat)
      requires t < |tasks|
    {
      var task := tasks[t];
      || (task.audio < |audios| && audios[task.audio].status == Is(Done) && audios[task.audio].description != "")
      || (task.output.Full? && task.output.description != "")
    }

    function RecoveredStatus(t: nat): Status
      requires t < |tasks|
    {
      if HasCompletedOutput(t) then Done
      else if tasks[t].status == CancelRequested then Canceled
      else Failed
    }

    /** Recovery of the interrupted ones among the first `n` tasks, in order. */
    function Recover(n: nat): (r: Db)
      requires n <= |tasks|
      ensures |r.tasks| == |tasks| && |r.audios| == |audios|
    {
      if n == 0 then this else
      var done := Recover(n - 1);
      if tasks[n - 1].status == Running || tasks[n - 1].status == CancelRequested
      then done.WithStatus(n - 1, done.RecoveredStatus(n - 1))
      else done
    }
  }

  // ---------------------------------------------------------------------------------------------
  // The tables themselves
  // ---------------------------------------------------------------------------------------------

  /** The two tables, as the service and the worker update them. */
  class Database {
    var audios: seq<Audio>
    var tasks: seq<Task>

    ghost function Rows(): Db
      reads this
    {
      Db(audios, tasks)
    }

    constructor (audios: seq<Audio>)
      ensures Rows() == Db(audios, [])
    {
      this.audios := audios;
      this.tasks := [];
    }

    method SetAudioStatus(a: nat, s: Status)
      modifies this`audios
      ensures Rows() == old(Rows()).WithAudioStatus(a, s)
    {
      if a < |audios| {
        audios := audios[a := audios[a].(status := Is(s))];
      }
    }

    method GetActiveTask(a: nat, except: int) returns (active: Option<nat>)
      ensures active.Some? <==> Rows().HasActive(a, except)
      ensures active.Some? ==>
                Rows().Active(active.value) && tasks[active.value].audio == a && active.value != except
    {
      active := None;
      for t := 0 to |tasks|
        invariant active.None? ==>
                    forall k: nat :: k < t ==> !(Rows().Active(k) && tasks[k].audio == a && k != except)
        invariant active.Some? ==>
                    Rows().Active(active.value) && tasks[active.value].audio == a && active.value != except
      {
        if active.None? && IsActive(tasks[t].status) && tasks[t].audio == a && t != except {
          active := Some(t);
        }
      }
    }

    method EnqueueAnalyze(a: nat, configured: bool) returns (r: Result<nat, Error>)
      modifies this
      ensures old(Rows()).Enqueue(a, configured).Ok? <==> r.Ok?
      ensures r.Ok? ==> Rows() == old(Rows()).Enqueue(a, configured).value && r.value == |old(tasks)|
      ensures r.Err? ==> Rows() == old(Rows()) && old(Rows()).Enqueue(a, configured) == Err(r.error)
    {
      if a >= |audios| {
        return Err(NotFound);
      }
      if audios[a].status.Is? && IsActive(audios[a].status.status) {
        return Err(AlreadyActive);
      }
      var active := GetActiveTask(a, -1);
      if active.Some? {
        return Err(AlreadyActive);
      }
      if !configured {
        return Err(NotConfigured);
      }
      r := Ok(|tasks|);
      tasks := tasks + [Task(a, Pending, NoOutput, 0)];
      SetAudioStatus(a, Pending);
    }

    method RetryTask(t: nat, configured: bool) returns (r: Result<(), Error>)
      modifies this
      ensures old(Rows()).Retry(t, configured).Ok? <==> r.Ok?
      ensures r.Ok? ==> Rows() == old(Rows()).Retry(t, configured).value
      ensures r.Err? ==> Rows() == old(Rows()) && old(Rows()).Retry(t, configured) == Err(r.error)
    {
      if t >= |tasks| {
        return Err(NotFound);
      }
      if tasks[t].status != Failed && tasks[t].status != Canceled {
        return Err(NotRetryable);
      }
      var active := GetActiveTask(tasks[t].audio, t);
      if active.Some? {
        return Err(AlreadyActive);
      }
      if !configured {
        return Err(NotConfigured);
      }
      var a := tasks[t].audio;
      tasks := tasks[t := Task(a, Pending, NoOutput, tasks[t].retries + 1)];
      SetAudioStatus(a, Pending);
      r := Ok(());
    }

    method CancelTask(t: nat) returns (r: Result<(), Error>)
      modifies this
      ensures old(Rows()).Cancel(t).Ok? <==> r.Ok?
      ensures r.Ok? ==> Rows() == old(Rows()).Cancel(t).value
      ensures r.Err? ==> Rows() == old(Rows()) && old(Rows()).Cancel(t) == Err(r.error)
    {
      if t >= |tasks| {
        return Err(NotFound);
      }
      if !IsActive(tasks[t].status) {
        return Err(NotCancelable);
      }
      if tasks[t].status == CancelRequested {
        return Ok(());
      }
      var a := tasks[t].audio;
      if tasks[t].status == Running {
        tasks := tasks[t := tasks[t].(status := CancelRequested)];
        SetAudioStatus(a, CancelRequested);
      } else {
        tasks := tasks[t := tasks[t].(status := Canceled)];
        SetAudioStatus(a, Canceled);
      }
      r := Ok(());
    }

    /** First step of a claim: read the oldest pending id. */
    method SelectPending() returns (t: Option<nat>)
      ensures t == Rows().FirstPending(0)
    {
      for n := 0 to |tasks|
        invariant Rows().FirstPending(0) == Rows().FirstPending(n)
      {
        if tasks[n].status == Pending {
          return Some(n);
        }
      }
      t := None;
    }

    /** Second step: update the row only if it is still pending. */
    method ClaimPending(t: nat) returns (claimed: bool)
      modifies this
      ensures Rows() == old(Rows()).Claim(t)
      ensures claimed <==> t < |old(tasks)| && old(tasks)[t].status == Pending
    {
      claimed := t < |tasks| && tasks[t].status == Pending;
      if claimed {
        tasks := tasks[t := tasks[t].(status := Running)];
      }
    }

    method SetStatus(t: nat, s: Status)
      requires t < |tasks|
      modifies this
      ensures Rows() == old(Rows()).WithStatus(t, s)
    {
      var a := tasks[t].audio;
      tasks := tasks[t := tasks[t].(status := s)];
      SetAudioStatus(a, s);
    }

    method MarkTaskDone(t: nat)
      requires t < |tasks|
      modifies this
      ensures Rows() == old(Rows()).MarkDone(t)
    {
      if tasks[t].status == Failed || tasks[t].status == Canceled {
        return;
      }
      SetStatus(t, Done);
    }

    method FinalizeCanceledTask(t: nat)
      requires t < |tasks|
      modifies this
      ensures Rows() == old(Rows()).FinalizeCanceled(t)
    {
      SetStatus(t, Canceled);
    }

    method MarkTaskFailedOrCanceled(t: nat)
      requires t < |tasks|
      modifies this
      ensures Rows() == old(Rows()).MarkFailedOrCanceled(t)
    {
      if tasks[t].status == CancelRequested || tasks[t].status == Canceled {
        FinalizeCanceledTask(t);
        return;
      }
      if !IsActive(tasks[t].status) {
        return;
      }
      SetStatus(t, Failed);
    }

    /** The handler's first commit. */
    method MarkAnalyzing(t: nat)
      requires t < |tasks|
      modifies this`audios
      ensures Rows() == old(Rows()).BeginAnalysis(t)
    {
      SetAudioStatus(tasks[t].audio, Running);
    }

    /** The handler's second commit. */
    method SaveRawContent(t: nat)
      requires t < |tasks|
      modifies this`tasks
      ensures Rows() == old(Rows()).SaveRaw(t)
    {
      tasks := tasks[t := tasks[t].(output := Raw)];
    }

    /** The handler's third commit. */
    method SaveAnalysis(t: nat, description: string)
      requires t < |tasks| && tasks[t].audio < |audios|
      modifies this
      ensures Rows() == old(Rows()).SaveOutput(t, description)
    {
      var a := tasks[t].audio;
      audios := audios[a := audios[a].(description := description)];
      audios := audios[a := audios[a].(status := Is(Done))];
      tasks := tasks[t := tasks[t].(output := Full(description))];
    }

    method RecoverInterruptedTasks() returns (recovered: nat)
      modifies this
      ensures Rows() == old(Rows()).Recover(|old(tasks)|)
      ensures recovered == |set t: nat | t < |old(tasks)| && old(Rows()).Interrupted(t)|
    {
      recovered := 0;
      ghost var before := Rows();
      ghost var counted: set<nat> := {};
      for t := 0 to |tasks|
        invariant |tasks| == |before.tasks| && Rows() == before.Recover(t)
        invariant forall k: nat :: t <= k < |tasks| ==> tasks[k] == before.tasks[k]
        invariant counted == set k: nat | k < t && before.Interrupted(k)
        invariant recovered == |counted|
      {
        if IsInterrupted(tasks[t].status) {
          var task := tasks[t];
          var complete := (task.audio < |audios| && audios[task.audio].status == Is(Done)
                           && audios[task.audio].description != "")
                          || (task.output.Full? && task.output.description != "");
          var final;
          if complete {
            final := Done;
          } else if task.status == CancelRequested {
            final := Canceled;
          } else {
            final := Failed;
          }
          SetStatus(t, final);
          recovered := recovered + 1;
          counted := counted + {t};
        }
      }
    }
  }
}
