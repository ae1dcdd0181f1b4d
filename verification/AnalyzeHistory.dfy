/** Why tasks end as they do: every final status, every retry and every answer of the model accounted for. */
module AnalyzeHistory {
  import opened Prelude
  import opened AnalyzeTasks
  import opened AnalyzeProtocol
  import opened AnalyzeGuarantees
  import Whitespace

  // ---------------------------------------------------------------------------------------------
  // Final statuses
  // ---------------------------------------------------------------------------------------------

  /** Task `t` was put in the queue and not claimed since. */
  predicate Waiting(log: seq<Effect>, t: nat) {
    if log == [] then false else
    var last := log[|log| - 1];
    if last == Queued(t) then true else if last == Claimed(t) then false else Waiting(log[..|log| - 1], t)
  }

  /** Task `t` was asked to cancel since it was last claimed. */
  predicate Asked(log: seq<Effect>, t: nat) {
    if log == [] then false else
    var last := log[|log| - 1];
    if last == Requested(t) then true else if last == Claimed(t) then false else Asked(log[..|log| - 1], t)
  }

  predicate WroteDescription(log: seq<Effect>, t: nat) {
    CurrentAttempt(log, t).Some? && CurrentAttempt(log, t).value != ""
  }

  /** What must have happened before task `t` ends: as done only with an output of its current attempt; as
      failed only when it was claimed, not asked to cancel, and wrote no description; as canceled only when
      it still waits or was asked to cancel, and wrote no description. */
  predicate Justified(before: seq<Effect>, t: nat, st: Status) {
    match st
    case Done => !Waiting(before, t) && CurrentAttempt(before, t).Some?
    case Failed => !Waiting(before, t) && !Asked(before, t) && !WroteDescription(before, t)
    case Canceled => (Waiting(before, t) || Asked(before, t)) && !WroteDescription(before, t)
    case _ => false
  }

  ghost predicate EndsJustified(log: seq<Effect>) {
    forall m :: 0 <= m < |log| && log[m].Ended? ==> Justified(log[..m], log[m].task, log[m].status)
  }

  /** The status of an active task is what the log says of it. */
  ghost predicate Accounted(db: Db, log: seq<Effect>) {
    && (forall t: nat :: t < |db.tasks| && db.tasks[t].status == Pending ==> Waiting(log, t))
    && (forall t: nat :: db.Interrupted(t) ==>
          !Waiting(log, t) && (Asked(log, t) <==> db.tasks[t].status == CancelRequested))
  }

  /** A step adds at most one entry to the log. */
  lemma {:induction false} AtMostOneEntry(s: System, e: Event)
    requires Consistent(s)
    ensures Step(s, e).log == s.log || (exists x :: Step(s, e).log == s.log + [x])
  {
    if e == Restart && s.worker == Down {
      if t: nat :| s.db.Interrupted(t) {
        RecoverOne(s.db, |s.db.tasks|, t);
      } else {
        RecoverNone(s.db, |s.db.tasks|);
        assert s.log + [] == s.log;
      }
    }
  }

  lemma {:induction false} EndsExtend(log: seq<Effect>, x: Effect)
    requires EndsJustified(log) && (x.Ended? ==> Justified(log, x.task, x.status))
    ensures EndsJustified(log + [x])
  {
    var all := log + [x];
    forall m | 0 <= m < |all| && all[m].Ended?
      ensures Justified(all[..m], all[m].task, all[m].status)
    {
      assert all[..m] == log[..m];
      assert log[..|log|] == log;
    }
  }

  lemma {:induction false} QueueAccounted(s: System, e: Event)
    requires Consistent(s) && Accounted(s.db, s.log) && (e.EnqueueCall? || e.RetryCall?)
    ensures Accounted(Step(s, e).db, Step(s, e).log)
    ensures Step(s, e).log == s.log || Step(s, e).log == s.log + [Queued(if e.RetryCall? then e.task else |s.db.tasks|)]
  {
    LogGrows(s.log, Queued(if e.RetryCall? then e.task else |s.db.tasks|));
  }

  lemma {:induction false} WaitingCanceled(s: System, t: nat)
    requires Consistent(s) && Accounted(s.db, s.log) && t < |s.db.tasks| && s.db.tasks[t].status == Pending
    ensures Accounted(Step(s, CancelCall(t)).db, Step(s, CancelCall(t)).log)
    ensures Step(s, CancelCall(t)).log == s.log + [Ended(t, s.db.tasks[t].audio, Canceled)]
    ensures Justified(s.log, t, Canceled)
  {
    LogGrows(s.log, Ended(t, s.db.tasks[t].audio, Canceled));
    WaitingWroteNothing(s, t);
  }

  lemma {:induction false} RunningAsked(s: System, t: nat)
    requires Consistent(s) && Accounted(s.db, s.log) && t < |s.db.tasks| && s.db.tasks[t].status == Running
    ensures Accounted(Step(s, CancelCall(t)).db, Step(s, CancelCall(t)).log)
    ensures Step(s, CancelCall(t)).log == s.log + [Requested(t)]
  {
    LogGrows(s.log, Requested(t));
  }

  lemma {:induction false} CancelAccounted(s: System, t: nat)
    requires Consistent(s) && Accounted(s.db, s.log)
    ensures Accounted(Step(s, CancelCall(t)).db, Step(s, CancelCall(t)).log)
    ensures var after := Step(s, CancelCall(t));
            |after.log| > |s.log| && after.log[|s.log|].Ended? ==>
              Justified(s.log, after.log[|s.log|].task, after.log[|s.log|].status)
  {
    if t < |s.db.tasks| && s.db.tasks[t].status == Pending {
      WaitingCanceled(s, t);
    } else if t < |s.db.tasks| && s.db.tasks[t].status == Running {
      RunningAsked(s, t);
    } else {
      assert Step(s, CancelCall(t)) == s;
    }
  }

  /** A waiting task has no description from an earlier attempt. */
  lemma {:induction false} WaitingWroteNothing(s: System, t: nat)
    requires Consistent(s) && t < |s.db.tasks| && s.db.tasks[t].status == Pending
    ensures !WroteDescription(s.log, t)
  {
    if CurrentAttempt(s.log, t).Some? {
      var k := AttemptEntry(s.log, t);
    }
  }

  lemma {:induction false} AttemptEntry(log: seq<Effect>, t: nat) returns (k: nat)
    requires CurrentAttempt(log, t).Some?
    ensures k < |log| && log[k] == Wrote(t, CurrentAttempt(log, t).value)
  {
    var last := log[|log| - 1];
    if last.Wrote? && last.task == t {
      k := |log| - 1;
    } else {
      k := AttemptEntry(log[..|log| - 1], t);
    }
  }

  lemma {:induction false} ClaimAccounted(s: System)
    requires Consistent(s) && Accounted(s.db, s.log)
    ensures Accounted(Step(s, Claim).db, Step(s, Claim).log)
  {
    var t := if s.worker.Selected? then s.worker.task else 0;
    LogGrows(s.log, Claimed(t));
  }

  lemma {:induction false} WorkAccounted(s: System, e: Event)
    requires Consistent(s) && Accounted(s.db, s.log)
    requires e.Check? || e.Begin? || e.Reply? || e.Parse? || e.Commit?
    ensures Accounted(Step(s, e).db, Step(s, e).log)
  {
  }

  predicate FinishesAs(phase: Phase, was: Status, st: Status) {
    match phase
    case Committed => st == Done
    case Canceling => st == Canceled
    case Failing => st == if was == CancelRequested then Canceled else Failed
    case _ => false
  }

  /** What finishing does: the held task ends, with a status that its phase and a cancel request decide. */
  lemma {:induction false} FinishEnds(s: System, t: nat, st: Status)
    requires Consistent(s) && s.worker.Holds? && s.worker.task == t
    requires t < |s.db.tasks| && FinishesAs(s.worker.phase, s.db.tasks[t].status, st)
    ensures Step(s, Finish) == System(s.db.WithStatus(t, st), Idle, s.log + [Ended(t, s.db.tasks[t].audio, st)])
  {
    assert RowAgrees(s.db, t);
  }

  lemma {:induction false} FinishAccounted(s: System)
    requires Consistent(s) && Accounted(s.db, s.log)
    ensures Accounted(Step(s, Finish).db, Step(s, Finish).log)
    ensures var after := Step(s, Finish);
            |after.log| > |s.log| && after.log[|s.log|].Ended? ==>
              Justified(s.log, after.log[|s.log|].task, after.log[|s.log|].status)
  {
    if s.worker.Holds? && (s.worker.phase == Committed || s.worker.phase == Canceling || s.worker.phase == Failing) {
      var t := s.worker.task;
      var st := if s.worker.phase == Committed then Done
                else if s.db.tasks[t].status == CancelRequested then Canceled else Failed;
      FinishEnds(s, t, st);
      LogGrows(s.log, Ended(t, s.db.tasks[t].audio, st));
    }
  }

  lemma {:induction false} RestartAccounted(s: System)
    requires Consistent(s) && Accounted(s.db, s.log)
    ensures Accounted(Step(s, Restart).db, Step(s, Restart).log)
    ensures var after := Step(s, Restart);
            |after.log| > |s.log| && after.log[|s.log|].Ended? ==>
              Justified(s.log, after.log[|s.log|].task, after.log[|s.log|].status)
  {
    if s.worker == Down {
      if t: nat :| s.db.Interrupted(t) {
        RecoverOne(s.db, |s.db.tasks|, t);
        RecoveredExactly(s, t);
        LogGrows(s.log, Ended(t, s.db.tasks[t].audio, s.db.RecoveredStatus(t)));
      } else {
        RecoverNone(s.db, |s.db.tasks|);
        assert s.log + [] == s.log;
      }
    }
  }

  lemma {:induction false} StepAccounted(s: System, e: Event)
    requires Consistent(s) && Accounted(s.db, s.log) && EndsJustified(s.log)
    ensures Accounted(Step(s, e).db, Step(s, e).log) && EndsJustified(Step(s, e).log)
  {
    var after := Step(s, e);
    AtMostOneEntry(s, e);
    if e.EnqueueCall? || e.RetryCall? {
      QueueAccounted(s, e);
    } else if e.CancelCall? {
      CancelAccounted(s, e.task);
    } else if e.Restart? {
      RestartAccounted(s);
    } else if e.Claim? {
      ClaimAccounted(s);
    } else if e.Finish? {
      FinishAccounted(s);
    } else if e.Check? || e.Begin? || e.Reply? || e.Parse? || e.Commit? {
      WorkAccounted(s, e);
    }
    if after.log != s.log {
      var x :| after.log == s.log + [x];
      assert after.log[|s.log|] == x;
      EndsExtend(s.log, x);
    }
  }

  /** In every run, every final status is justified by what the log says before it. */
  lemma {:induction false} EveryEndJustified(audios: seq<string>, events: seq<Event>)
    ensures Accounted(Run(audios, events).db, Run(audios, events).log)
    ensures EndsJustified(Run(audios, events).log)
  {
    if events == [] {
    } else {
      var front := events[..|events| - 1];
      RunConsistent(audios, front);
      EveryEndJustified(audios, front);
      StepAccounted(Run(audios, front), events[|events| - 1]);
    }
  }

  // ---------------------------------------------------------------------------------------------
  // Errors and answers
  // ---------------------------------------------------------------------------------------------

  /** Whatever goes wrong while the handler runs, the task and its audio item end as failed, or as canceled
      when that was requested; nothing else ends. */
  lemma {:induction false} ErrorsEndAsFailed(audios: seq<string>, events: seq<Event>, t: nat)
    requires Run(audios, events).worker == Holds(t, Failing)
    ensures var s := Run(audios, events);
            var after := Step(s, Finish);
            && t < |s.db.tasks| && (s.db.tasks[t].status == Running || s.db.tasks[t].status == CancelRequested)
            && (s.db.tasks[t].status == Running ==>
                  BothShow(after.db, t, Failed) && after.log == s.log + [Ended(t, s.db.tasks[t].audio, Failed)])
            && (s.db.tasks[t].status == CancelRequested ==>
                  BothShow(after.db, t, Canceled) && after.log == s.log + [Ended(t, s.db.tasks[t].audio, Canceled)])
            && after.worker == Idle
  {
    RunConsistent(audios, events);
    assert RowAgrees(Run(audios, events).db, t);
  }

  /** In this phase the event is an error of the handler. */
  predicate GoesWrong(phase: Phase, e: Event) {
    match phase
    case Checked => e == Begin(false)
    case Calling => e == Reply(false)
    case Answered => e == Parse(None) || e == Parse(Some(""))
    case Cleared(_) => e == Commit(false)
    case _ => false
  }

  /** A model call that fails, an answer that cannot be used and a commit that fails each lead there, when
      the task was not asked to cancel. */
  lemma {:induction false} ErrorsAreFailures(audios: seq<string>, events: seq<Event>, e: Event)
    requires Run(audios, events).worker.Holds?
    requires GoesWrong(Run(audios, events).worker.phase, e)
    ensures var t := Run(audios, events).worker.task;
            t < |Run(audios, events).db.tasks| &&
            BothShow(Run(audios, events + [e] + [Finish]).db, t,
                     if Run(audios, events).db.tasks[t].status == CancelRequested then Canceled else Failed)
  {
    var s := Run(audios, events);
    RunConsistent(audios, events);
    RunStep(audios, events, e);
    RunStep(audios, events + [e], Finish);
    var t := s.worker.task;
    WrongStep(s, e);
    StepKeeps(s, e);
    FinishEnds(Step(s, e), t, if s.db.tasks[t].status == CancelRequested then Canceled else Failed);
    assert RowAgrees(s.db, t);
  }

  lemma {:induction false} WrongStep(s: System, e: Event)
    requires Consistent(s) && s.worker.Holds? && GoesWrong(s.worker.phase, e)
    ensures var t := s.worker.task;
            && t < |s.db.tasks|
            && Step(s, e) ==
               InPhase(s, if s.worker.phase == Answered && s.db.CancelSeen(t) then Canceling else Failing)
  {
    assert RowAgrees(s.db, s.worker.task);
  }

  /** The stored description is the stripped answer, or of a longer one the first 800 characters without
      the white space at their end. */
  lemma {:induction false} CleanExactly(raw: string)
    ensures var d := Whitespace.Strip(raw);
            && (|d| <= 800 ==> Clean(raw) == d)
            && (|d| > 800 ==>
                  && |Clean(raw)| <= 800 && Clean(raw) == d[..|Clean(raw)|]
                  && Whitespace.IsBlank(d[|Clean(raw)|..800]))
            && Whitespace.Trim(Clean(raw))
  {
    var d := Whitespace.Strip(raw);
    var _, _ := Whitespace.StripSplits(raw);
    if |d| > 800 {
      var front, back := Whitespace.StripSplits(d[..800]);
      assert d[..800] == Clean(raw) + back;
      assert d[|Clean(raw)|..800] == back;
    }
  }

  /** A usable answer that nobody cancels is stored as it is cleaned, and the task ends as done. */
  lemma {:induction false} AnswerIsStored(audios: seq<string>, events: seq<Event>, raw: string)
    requires Run(audios, events).worker.Holds? && Run(audios, events).worker.phase == Answered && raw != ""
    requires var s := Run(audios, events);
             s.worker.task < |s.db.tasks| && s.db.tasks[s.worker.task].status == Running
    ensures var t := Run(audios, events).worker.task;
            var db := Run(audios, events + [Parse(Some(raw))] + [Check] + [Commit(true)] + [Finish]).db;
            && BothShow(db, t, Done)
            && db.tasks[t].output == Full(Clean(raw))
            && db.audios[db.tasks[t].audio].description == Clean(raw)
  {
    var s := Run(audios, events);
    RunConsistent(audios, events);
    var parsed := events + [Parse(Some(raw))];
    RunStep(audios, events, Parse(Some(raw)));
    RunStep(audios, parsed, Check);
    RunStep(audios, parsed + [Check], Commit(true));
    RunStep(audios, parsed + [Check] + [Commit(true)], Finish);
    AnswerPasses(s, s.worker.task, raw);
    var cleared := s.(worker := Holds(s.worker.task, Cleared(Clean(raw))));
    OutputIsKept(cleared, s.worker.task, Clean(raw));
  }

  lemma {:induction false} AnswerPasses(s: System, t: nat, raw: string)
    requires Consistent(s) && s.worker == Holds(t, Answered) && s.db.tasks[t].status == Running && raw != ""
    ensures Step(Step(s, Parse(Some(raw))), Check) == s.(worker := Holds(t, Cleared(Clean(raw))))
  {
    assert RowAgrees(s.db, t);
  }

  lemma {:induction false} OutputIsKept(s: System, t: nat, d: string)
    requires s.worker == Holds(t, Cleared(d)) && RowsAgree(s.db) && t < |s.db.tasks|
    requires s.db.tasks[t].status == Running
    ensures var db := Step(Step(s, Commit(true)), Finish).db;
            && BothShow(db, t, Done) && db.tasks[t].output == Full(d)
            && db.audios[db.tasks[t].audio].description == d
  {
    assert RowAgrees(s.db, t);
    var stored := Step(s, Commit(true));
    assert stored.db == s.db.SaveOutput(t, d) && stored.worker == Holds(t, Committed);
  }

  // ---------------------------------------------------------------------------------------------
  // Retries
  // ---------------------------------------------------------------------------------------------

  /** How often task `t` was put in the queue. */
  function TimesQueued(log: seq<Effect>, t: nat): nat {
    if log == [] then 0
    else TimesQueued(log[..|log| - 1], t) + if log[|log| - 1] == Queued(t) then 1 else 0
  }

  ghost predicate RetriesCounted(s: System) {
    && (forall t: nat :: t < |s.db.tasks| ==> TimesQueued(s.log, t) == s.db.tasks[t].retries + 1)
    && (forall t: nat :: t >= |s.db.tasks| ==> TimesQueued(s.log, t) == 0)
  }

  lemma {:induction false} QueueCounts(s: System, e: Event)
    requires RetriesCounted(s) && (e.EnqueueCall? || e.RetryCall?)
    ensures RetriesCounted(Step(s, e))
  {
    LogGrows(s.log, Queued(if e.RetryCall? then e.task else |s.db.tasks|));
  }

  ghost predicate QueuesNothing(s: System, after: System) {
    && |after.db.tasks| == |s.db.tasks|
    && (forall t: nat :: t < |s.db.tasks| ==> after.db.tasks[t].retries == s.db.tasks[t].retries)
    && (after.log == s.log || exists x: Effect :: !x.Queued? && after.log == s.log + [x])
  }

  /** No other entry than a queued task counts. */
  lemma {:induction false} OthersDoNotCount(s: System, after: System)
    requires RetriesCounted(s) && QueuesNothing(s, after)
    ensures RetriesCounted(after)
  {
    if after.log != s.log {
      var x: Effect :| !x.Queued? && after.log == s.log + [x];
      LogGrows(s.log, x);
    }
  }

  lemma {:induction false} RestartQueuesNothing(s: System)
    requires Consistent(s) && s.worker == Down
    ensures QueuesNothing(s, Step(s, Restart))
  {
    if t: nat :| s.db.Interrupted(t) {
      RecoverOne(s.db, |s.db.tasks|, t);
    } else {
      RecoverNone(s.db, |s.db.tasks|);
      assert s.log + [] == s.log;
    }
  }

  lemma {:induction false} CancelQueuesNothing(s: System, t: nat)
    ensures QueuesNothing(s, Step(s, CancelCall(t)))
  {
  }

  lemma {:induction false} WorkQueuesNothing(s: System, e: Event)
    requires Holding(s) && !e.Finish?
    ensures QueuesNothing(s, WorkStep(s, e))
  {
  }

  lemma {:induction false} FinishQueuesNothing(s: System)
    requires Holding(s)
    ensures QueuesNothing(s, WorkStep(s, Finish))
  {
  }

  lemma {:induction false} StepCounts(s: System, e: Event)
    requires Consistent(s) && RetriesCounted(s)
    ensures RetriesCounted(Step(s, e))
  {
    if e.EnqueueCall? || e.RetryCall? {
      QueueCounts(s, e);
    } else {
      StepQueuesNothing(s, e);
      OthersDoNotCount(s, Step(s, e));
    }
  }

  lemma {:induction false} StepQueuesNothing(s: System, e: Event)
    requires Consistent(s) && !e.EnqueueCall? && !e.RetryCall?
    ensures QueuesNothing(s, Step(s, e))
  {
    match e
    case CancelCall(t) => CancelQueuesNothing(s, t);
    case Select =>
    case Claim =>
    case Crash =>
    case Restart =>
      if s.worker == Down {
        RestartQueuesNothing(s);
      }
    case Finish =>
      if Holding(s) {
        FinishQueuesNothing(s);
      }
    case _ =>
      if Holding(s) {
        WorkQueuesNothing(s, e);
      }
  }

  /** In every run, a task's retry count is the number of times it was queued after the first. */
  lemma {:induction false} EveryRetryCounted(audios: seq<string>, events: seq<Event>)
    ensures RetriesCounted(Run(audios, events))
  {
    if events == [] {
    } else {
      var front := events[..|events| - 1];
      RunConsistent(audios, front);
      EveryRetryCounted(audios, front);
      StepCounts(Run(audios, front), events[|events| - 1]);
    }
  }

  // ---------------------------------------------------------------------------------------------
  // Accepted calls
  // ---------------------------------------------------------------------------------------------

  /** A task that has not ended. */
  predicate Unfinished(db: Db, t: nat) {
    t < |db.tasks| && db.tasks[t].status != Done && db.tasks[t].status != Failed && db.tasks[t].status != Canceled
  }

  /** The audio item shows a task that has not ended. */
  predicate ShownUnfinished(db: Db, a: nat) {
    a < |db.audios| && db.audios[a].status in {Is(Pending), Is(Running), Is(CancelRequested)}
  }

  ghost predicate HasUnfinished(db: Db, a: nat, except: int) {
    exists t: nat :: Unfinished(db, t) && db.tasks[t].audio == a && t != except
  }

  lemma {:induction false} UnfinishedIsActive(db: Db, a: nat, except: int)
    ensures HasUnfinished(db, a, except) <==> db.HasActive(a, except)
  {
    forall t: nat
      ensures Unfinished(db, t) <==> db.Active(t)
    {
    }
    if t: nat :| Unfinished(db, t) && db.tasks[t].audio == a && t != except {
      assert db.Active(t);
    }
    if t: nat :| t < |db.tasks| && db.Active(t) && db.tasks[t].audio == a && t != except {
      assert Unfinished(db, t);
    }
  }

  /** What an enqueue answers, in this order: the audio item does not exist; it has a task that has not ended,
      or shows one; the model is not configured; otherwise there is one more pending task, and nothing else
      changes but the item's status. */
  lemma {:induction false} EnqueueExactly(db: Db, a: nat, configured: bool)
    ensures var r := db.Enqueue(a, configured);
            var active := ShownUnfinished(db, a) || HasUnfinished(db, a, -1);
            && (r == Err(NotFound) <==> a >= |db.audios|)
            && (r == Err(AlreadyActive) <==> a < |db.audios| && active)
            && (r == Err(NotConfigured) <==> a < |db.audios| && !active && !configured)
            && (r.Ok? <==> a < |db.audios| && !active && configured)
            && (r.Ok? ==>
                  && r.value.tasks == db.tasks + [Task(a, Pending, NoOutput, 0)]
                  && r.value.audios == db.audios[a := Audio(Is(Pending), db.audios[a].description)])
  {
    UnfinishedIsActive(db, a, -1);
  }

  /** In a reachable state the audio item never shows more than the tasks say. */
  lemma {:induction false} EnqueueAccepted(audios: seq<string>, events: seq<Event>, a: nat)
    ensures var db := Run(audios, events).db;
            db.Enqueue(a, true).Ok? <==> a < |db.audios| && !HasUnfinished(db, a, -1)
  {
    var db := Run(audios, events).db;
    ReachableStates(audios, events);
    UnfinishedIsActive(db, a, -1);
  }

  /** What a retry answers, in this order: there is no such task; it neither failed nor was canceled; another
      task of its audio item has not ended; the model is not configured; otherwise the task starts over:
      pending, without output, one more retry. */
  lemma {:induction false} RetryExactly(db: Db, t: nat, configured: bool)
    ensures var r := db.Retry(t, configured);
            var ended := t < |db.tasks| && (db.tasks[t].status == Failed || db.tasks[t].status == Canceled);
            && (r == Err(NotFound) <==> t >= |db.tasks|)
            && (r == Err(NotRetryable) <==> t < |db.tasks| && !ended)
            && (r == Err(AlreadyActive) <==> ended && HasUnfinished(db, db.tasks[t].audio, t))
            && (r == Err(NotConfigured) <==> ended && !HasUnfinished(db, db.tasks[t].audio, t) && !configured)
            && (r.Ok? <==> ended && !HasUnfinished(db, db.tasks[t].audio, t) && configured)
            && (r.Ok? ==>
                  && |r.value.tasks| == |db.tasks|
                  && r.value.tasks[t] == Task(db.tasks[t].audio, Pending, NoOutput, db.tasks[t].retries + 1)
                  && OnlyRow(db, r.value, t)
                  && (db.tasks[t].audio < |db.audios| ==> BothShow(r.value, t, Pending)))
  {
    if t < |db.tasks| {
      UnfinishedIsActive(db, db.tasks[t].audio, t);
    }
  }

  /** A cancel call is refused exactly for tasks that have ended; it asks a running task to cancel, cancels a
      waiting one, and changes nothing else but the audio item's status. */
  lemma {:induction false} CancelExactly(db: Db, t: nat)
    requires t < |db.tasks| ==> db.tasks[t].audio < |db.audios|
    ensures var r := db.Cancel(t);
            && (r == Err(NotFound) <==> t >= |db.tasks|)
            && (r == Err(NotCancelable) <==>
                  t < |db.tasks| && (db.tasks[t].status == Done || db.tasks[t].status == Failed
                                     || db.tasks[t].status == Canceled))
            && (r.Ok? ==>
                  && t < |db.tasks| && OnlyRow(db, r.value, t)
                  && (db.tasks[t].status == Pending ==> BothShow(r.value, t, Canceled))
                  && (db.tasks[t].status == Running ==> BothShow(r.value, t, CancelRequested))
                  && (db.tasks[t].status == CancelRequested ==> r.value == db)
                  && r.value.tasks[t].output == db.tasks[t].output)
  {
  }

  // ---------------------------------------------------------------------------------------------
  // Rows in any state
  // ---------------------------------------------------------------------------------------------

  /** The finalizers on a row in whatever state they find it: a canceled task stays canceled, a failed one is
      neither done nor failed anew, and a done one does not fail. */
  lemma {:induction false} FinalizersExactly(db: Db, t: nat)
    requires t < |db.tasks| && db.tasks[t].audio < |db.audios|
    ensures var st, done := db.tasks[t].status, db.MarkDone(t);
            if st == Failed || st == Canceled then done == db else BothShow(done, t, Done)
    ensures var st, failed := db.tasks[t].status, db.MarkFailedOrCanceled(t);
            if st == Done || st == Failed then failed == db
            else BothShow(failed, t, if st == CancelRequested || st == Canceled then Canceled else Failed)
    ensures BothShow(db.FinalizeCanceled(t), t, Canceled)
    ensures OnlyRow(db, db.MarkDone(t), t) && OnlyRow(db, db.MarkFailedOrCanceled(t), t)
    ensures OnlyRow(db, db.FinalizeCanceled(t), t)
  {
  }

  /** Another interrupted task of the same audio item. */
  ghost predicate SharesAudio(db: Db, t: nat)
    requires t < |db.tasks|
  {
    exists u: nat :: u != t && db.Interrupted(u) && db.tasks[u].audio == db.tasks[t].audio
  }

  /** Recovery of any tables, also of those that no run leaves: every task that was running or asked to cancel
      gets a final status and nothing else about it changes. It is done when its audio item is done with a
      description, or its own output has one; unless another one decides for the audio item, it is
      otherwise canceled or failed, as it was asked to cancel or not. */
  lemma {:induction false} RecoverAny(db: Db, n: nat, t: nat)
    requires n <= |db.tasks| && t < |db.tasks|
    ensures var after, task := db.Recover(n), db.tasks[t];
            && |after.tasks| == |db.tasks| && |after.audios| == |db.audios|
            && (t >= n || !db.Interrupted(t) ==> after.tasks[t] == task)
            && (t < n && db.Interrupted(t) ==>
                  exists st :: RecoversTo(db, t, st) && after.tasks[t] == task.(status := st))
            && (task.audio < |db.audios| ==>
                  after.audios[task.audio].description == db.audios[task.audio].description)
            && (task.audio < |db.audios| && (t >= n || !db.Interrupted(t)) && !SharesAudio(db, t) ==>
                  after.audios[task.audio] == db.audios[task.audio])
  {
    if n == 0 {
    } else {
      RecoverAny(db, n - 1, t);
      RecoverAny(db, n - 1, n - 1);
      assert IsInterrupted(db.tasks[n - 1].status) <==> db.Interrupted(n - 1);
    }
  }

  ghost predicate RecoversTo(db: Db, t: nat, st: Status)
    requires t < |db.tasks|
  {
    var task := db.tasks[t];
    var own := task.output.Full? && task.output.description != "";
    var audio := task.audio < |db.audios| && db.audios[task.audio] == Audio(Is(Done), db.audios[task.audio].description)
                 && db.audios[task.audio].description != "";
    && (st == Done || st == (if task.status == CancelRequested then Canceled else Failed))
    && (own ==> st == Done)
    && (!SharesAudio(db, t) ==> (st == Done <==> own || audio))
  }

  // ---------------------------------------------------------------------------------------------
  // The checks for a cancel request
  // ---------------------------------------------------------------------------------------------

  /** In this phase the event begins with a check for a cancel request. */
  predicate LooksForRequest(phase: Phase, e: Event) {
    match phase
    case Start => e == Check
    case Answered => e.Parse?
    case Parsed(_) => e == Check
    case _ => false
  }

  /** Each of the three checks sees a request: the task ends as canceled, with nothing begun or stored in
      between; without one the handler goes on. */
  lemma {:induction false} EveryCheckSees(audios: seq<string>, events: seq<Event>, e: Event)
    requires Run(audios, events).worker.Holds?
    requires LooksForRequest(Run(audios, events).worker.phase, e)
    ensures var s := Run(audios, events);
            var t := s.worker.task;
            var last := Run(audios, events + [e] + [Finish]);
            && t < |s.db.tasks| && (s.db.tasks[t].status == Running || s.db.tasks[t].status == CancelRequested)
            && (s.db.tasks[t].status == CancelRequested ==>
                  BothShow(last.db, t, Canceled) && last.log == s.log + [Ended(t, s.db.tasks[t].audio, Canceled)])
            && (s.db.tasks[t].status == Running && e == Check ==>
                  Run(audios, events + [e]) ==
                  InPhase(s, if s.worker.phase == Start then Checked else Cleared(s.worker.phase.description)))
  {
    var s := Run(audios, events);
    RunConsistent(audios, events);
    RunStep(audios, events, e);
    RunStep(audios, events + [e], Finish);
    assert RowAgrees(s.db, s.worker.task);
    if s.db.tasks[s.worker.task].status == CancelRequested {
      StepKeeps(s, e);
      FinishEnds(Step(s, e), s.worker.task, Canceled);
    }
  }
}
