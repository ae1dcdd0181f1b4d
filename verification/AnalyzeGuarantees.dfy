/** What every run of the analyze protocol guarantees. */
module AnalyzeGuarantees {
  import opened Prelude
  import opened AnalyzeTasks
  import opened AnalyzeProtocol
  import Whitespace

  /** Every reachable state: one active task per audio item; the running or canceling task is the one the
      worker holds, and its audio item shows the last thing that happened to it; and an audio item without
      an active task shows how its last task ended. */
  lemma {:induction false} ReachableStates(audios: seq<string>, events: seq<Event>)
    ensures var s := Run(audios, events);
            && (forall t: nat, u: nat :: s.db.Active(t) && s.db.Active(u) && s.db.tasks[t].audio == s.db.tasks[u].audio
                  ==> t == u)
            && (forall t: nat :: s.worker != Down ==> (s.db.Interrupted(t) <==> s.worker.Holds? && s.worker.task == t))
            && (forall t: nat :: s.db.Interrupted(t) ==> AudioShows(s.db, t, Shown(s.log, t)))
            && (forall a: nat :: a < |s.db.audios| && !s.db.HasActive(a, -1) ==>
                  && s.db.audios[a].status == LastEnded(s.log, a)
                  && (s.db.audios[a].status.Is? ==> !IsActive(s.db.audios[a].status.status)))
  {
    var s := Run(audios, events);
    RunConsistent(audios, events);
    forall a: nat | a < |s.db.audios| && !s.db.HasActive(a, -1)
      ensures s.db.audios[a].status == LastEnded(s.log, a)
      ensures s.db.audios[a].status.Is? ==> !IsActive(s.db.audios[a].status.status)
    {
      LastEndedIsFinal(s.log, a);
    }
  }

  predicate AudioShows(db: Db, t: nat, st: Status) {
    && t < |db.tasks| && db.tasks[t].audio < |db.audios|
    && db.audios[db.tasks[t].audio].status == Is(st)
  }

  /** Entry `k` asks task `t` to cancel, and the handler commits nothing for it afterwards. */
  predicate RequestedLast(log: seq<Effect>, t: nat, k: nat) {
    && k < |log| && log[k] == Requested(t)
    && forall m :: k < m < |log| && log[m].task == t ==> log[m].Ended?
  }

  lemma {:induction false} ShownRequested(log: seq<Effect>, t: nat)
    ensures Shown(log, t) == CancelRequested <==> exists k: nat :: RequestedLast(log, t, k)
  {
    if log == [] {
    } else {
      var n := |log| - 1;
      var front, last := log[..n], log[n];
      ShownRequested(front, t);
      if last.task != t || last.Ended? {
        forall k: nat
          ensures RequestedLast(log, t, k) <==> RequestedLast(front, t, k)
        {
          assert k < n && (forall m :: k < m < n ==> front[m] == log[m]) ==>
                   (RequestedLast(log, t, k) <==> RequestedLast(front, t, k));
        }
      } else if last == Requested(t) {
        assert RequestedLast(log, t, n);
      } else {
        assert forall k: nat :: k < n ==> !RequestedLast(log, t, k);
      }
    }
  }

  /** A task that is asked to cancel has an audio item that says so if and only if the handler committed
      nothing for it since the request. */
  lemma {:induction false} RequestShownExactly(audios: seq<string>, events: seq<Event>, t: nat)
    requires var s := Run(audios, events); t < |s.db.tasks| && s.db.tasks[t].status == CancelRequested
    ensures var s := Run(audios, events);
            AudioShows(s.db, t, CancelRequested) <==> exists k: nat :: RequestedLast(s.log, t, k)
  {
    var s := Run(audios, events);
    ReachableStates(audios, events);
    assert s.db.Interrupted(t);
    ShownRequested(s.log, t);
  }

  lemma {:induction false} LastEndedIsFinal(log: seq<Effect>, a: nat)
    requires EndsAreFinal(log)
    ensures LastEnded(log, a).Is? ==> !IsActive(LastEnded(log, a).status)
  {
    if log == [] {
    } else {
      LastEndedIsFinal(log[..|log| - 1], a);
    }
  }

  /** A task whose description was stored, and its audio item, show `st`. */
  predicate BothShow(db: Db, t: nat, st: Status) {
    && t < |db.tasks| && db.tasks[t].status == st
    && db.tasks[t].audio < |db.audios| && db.audios[db.tasks[t].audio].status == Is(st)
  }

  /** Done wins: once an attempt has stored a description, through any cancel requests and restarts the
      task only ever ends as done and is never claimed again, and until then the one step left to it
      marks the task and its audio item done. */
  lemma {:induction false} WrittenOutputWins(audios: seq<string>, events: seq<Event>, k: nat)
    requires k < |Run(audios, events).log|
    requires Run(audios, events).log[k].Wrote? && Run(audios, events).log[k].description != ""
    ensures var s := Run(audios, events);
            var t := s.log[k].task;
            && (forall m :: k < m < |s.log| ==>
                  s.log[m] != Claimed(t) && (s.log[m].Ended? && s.log[m].task == t ==> s.log[m].status == Done))
            && t < |s.db.tasks|
            && (s.db.tasks[t].status == Done
                || (s.worker == Holds(t, Committed) && BothShow(Step(s, Finish).db, t, Done))
                || (s.worker == Down && BothShow(Step(s, Restart).db, t, Done)))
  {
    var s := Run(audios, events);
    RunConsistent(audios, events);
    SettledEnds(s, s.log[k].task, s.log[k].description);
  }

  lemma SettledEnds(s: System, t: nat, d: string)
    requires Consistent(s) && Settled(s.db, t, d) && d != ""
    ensures s.db.tasks[t].status == Done
            || (s.worker == Holds(t, Committed) && BothShow(Step(s, Finish).db, t, Done))
            || (s.worker == Down && BothShow(Step(s, Restart).db, t, Done))
  {
    if s.db.tasks[t].status != Done {
      assert RowAgrees(s.db, t);
      if s.worker == Down {
        RecoverOne(s.db, |s.db.tasks|, t);
      }
    }
  }

  /** Task `t` was asked to cancel, its attempt stored no description, and the handler is not already past
      its last check. */
  predicate CancelDue(s: System, t: nat) {
    && t < |s.db.tasks| && s.db.tasks[t].status == CancelRequested && !s.db.tasks[t].output.Full?
    && !(s.worker.Holds? && s.worker.task == t && s.worker.phase.Cleared?)
  }

  /** The entry decides something about task `t`: it is claimed, its output is stored, or it ends. */
  predicate Decides(e: Effect, t: nat) {
    e.task == t && (e.Claimed? || e.Wrote? || e.Ended?)
  }

  ghost predicate Undecided(log: seq<Effect>, from: nat, t: nat) {
    forall k :: from <= k < |log| ==> !Decides(log[k], t)
  }

  /** From entry `from` on, the first thing the log decides about task `t` is that it was canceled. */
  ghost predicate CanceledFirst(log: seq<Effect>, from: nat, t: nat) {
    exists m :: from <= m < |log| && log[m].Ended? && log[m].task == t && log[m].status == Canceled
                && forall k :: from <= k < m ==> !Decides(log[k], t)
  }

  /** A due cancellation stays due, with nothing decided, until the task is canceled. */
  lemma {:induction false} CancelStaysDue(s: System, e: Event, t: nat)
    requires Consistent(s) && CancelDue(s, t)
    ensures var after := Step(s, e);
            && s.log <= after.log
            && (if CancelDue(after, t) then Undecided(after.log, |s.log|, t)
                else after.log == s.log + [Ended(t, s.db.tasks[t].audio, Canceled)])
  {
    if e == Restart && s.worker == Down {
      RecoverOne(s.db, |s.db.tasks|, t);
      RecoveredExactly(s, t);
    } else if e.CancelCall? {
      DueThroughCancel(s, e.task, t);
    } else if e.EnqueueCall? || e.RetryCall? || e.Select? || e.Claim? || e.Crash? || e.Restart? {
    } else {
      DueThroughWork(s, e, t);
    }
  }

  lemma {:induction false} DueThroughCancel(s: System, u: nat, t: nat)
    requires Consistent(s) && CancelDue(s, t)
    ensures var after := Step(s, CancelCall(u));
            s.log <= after.log && CancelDue(after, t) && Undecided(after.log, |s.log|, t)
  {
    if u < |s.db.tasks| {
      LogGrows(s.log, Ended(u, s.db.tasks[u].audio, Canceled));
    }
  }

  lemma {:induction false} DueThroughWork(s: System, e: Event, t: nat)
    requires Consistent(s) && CancelDue(s, t)
    requires e.Check? || e.Begin? || e.Reply? || e.Parse? || e.Commit? || e.Finish?
    ensures var after := Step(s, e);
            && s.log <= after.log
            && (if CancelDue(after, t) then Undecided(after.log, |s.log|, t)
                else after.log == s.log + [Ended(t, s.db.tasks[t].audio, Canceled)])
  {
  }

  lemma {:induction false} LogOnlyGrows(s: System, e: Event)
    ensures s.log <= Step(s, e).log
  {
  }

  /** A cancel request is honoured: when it comes before the handler's last check, then whatever follows,
      the next thing decided about the task is that it ends as canceled. */
  lemma {:induction false} CancelIsHonoured(audios: seq<string>, events: seq<Event>, more: seq<Event>, t: nat)
    requires CancelDue(Run(audios, events), t)
    ensures var s, after := Run(audios, events), Run(audios, events + more);
            && s.log <= after.log
            && (CanceledFirst(after.log, |s.log|, t)
                || (CancelDue(after, t) && Undecided(after.log, |s.log|, t)))
  {
    if more == [] {
      assert events + more == events;
    } else {
      var front := more[..|more| - 1];
      var e := more[|more| - 1];
      CancelIsHonoured(audios, events, front, t);
      assert events + more == events + front + [e];
      RunStep(audios, events + front, e);
      RunConsistent(audios, events + front);
      HonouredStep(Run(audios, events + front), e, |Run(audios, events).log|, t);
    }
  }

  lemma {:induction false} HonouredStep(s: System, e: Event, from: nat, t: nat)
    requires Consistent(s) && from <= |s.log|
    requires CanceledFirst(s.log, from, t) || (CancelDue(s, t) && Undecided(s.log, from, t))
    ensures var after := Step(s, e);
            && s.log <= after.log
            && (CanceledFirst(after.log, from, t) || (CancelDue(after, t) && Undecided(after.log, from, t)))
  {
    var after := Step(s, e);
    LogOnlyGrows(s, e);
    if CanceledFirst(s.log, from, t) {
      var m :| from <= m < |s.log| && s.log[m].Ended? && s.log[m].task == t && s.log[m].status == Canceled
               && forall k :: from <= k < m ==> !Decides(s.log[k], t);
      assert after.log[m] == s.log[m];
    } else {
      CancelStaysDue(s, e, t);
      if !CancelDue(after, t) {
        assert after.log[|s.log|] == Ended(t, s.db.tasks[t].audio, Canceled);
      }
    }
  }

  /** Past the handler's last check a request comes too late: the commit that follows wins, and the task and
      its audio item end as done. */
  lemma {:induction false} CancelTooLate(audios: seq<string>, events: seq<Event>)
    requires Run(audios, events).worker.Holds? && Run(audios, events).worker.phase.Cleared?
    ensures var t := Run(audios, events).worker.task;
            BothShow(Run(audios, events + [CancelCall(t)] + [Commit(true)] + [Finish]).db, t, Done)
  {
    var s := Run(audios, events);
    var t := s.worker.task;
    var asked := events + [CancelCall(t)];
    RunConsistent(audios, events);
    RunStep(audios, events, CancelCall(t));
    RunStep(audios, asked, Commit(true));
    RunStep(audios, asked + [Commit(true)], Finish);
    StepKeeps(s, CancelCall(t));
    CommitWins(Step(s, CancelCall(t)));
  }

  lemma {:induction false} CommitWins(s: System)
    requires Consistent(s) && s.worker.Holds? && s.worker.phase.Cleared?
    ensures BothShow(Step(Step(s, Commit(true)), Finish).db, s.worker.task, Done)
  {
    assert RowAgrees(s.db, s.worker.task);
    var stored := Step(s, Commit(true));
    assert stored.worker == Holds(s.worker.task, Committed);
  }

  /** Recovery is exact: a restart leaves nothing interrupted, touches the interrupted task only, and
      marks it done if and only if its current attempt stored a description. */
  lemma {:induction false} RecoveryExact(audios: seq<string>, events: seq<Event>, t: nat)
    requires Run(audios, events).worker == Down && Run(audios, events).db.Interrupted(t)
    ensures var s := Run(audios, events);
            var after := Step(s, Restart);
            var wrote := CurrentAttempt(s.log, t);
            && OnlyRow(s.db, after.db, t)
            && BothShow(after.db, t, if wrote.Some? && wrote.value != "" then Done
                                     else if s.db.tasks[t].status == CancelRequested then Canceled
                                     else Failed)
            && after.log == s.log + [Ended(t, s.db.tasks[t].audio, after.db.tasks[t].status)]
            && forall u: nat :: !after.db.Interrupted(u)
  {
    var s := Run(audios, events);
    RunConsistent(audios, events);
    assert RowAgrees(s.db, t);
    RecoverOne(s.db, |s.db.tasks|, t);
    RecoveredExactly(s, t);
    assert forall u: nat :: Step(s, Restart).db.Interrupted(u) ==> s.db.Interrupted(u) && u != t;
  }

  /** A commit survives a crash exactly when the stored description is not empty; without a crash the
      task ends as done either way. */
  lemma {:induction false} CommitSurvivesCrash(audios: seq<string>, events: seq<Event>)
    requires Run(audios, events).worker.Holds? && Run(audios, events).worker.phase == Committed
    ensures var s := Run(audios, events);
            var t := s.worker.task;
            && t < |s.db.tasks| && s.db.tasks[t].output.Full?
            && BothShow(Step(s, Finish).db, t, Done)
            && (BothShow(Step(Step(s, Crash), Restart).db, t, Done) <==> s.db.tasks[t].output.description != "")
  {
    var s := Run(audios, events);
    RunConsistent(audios, events);
    var t := s.worker.task;
    assert RowAgrees(s.db, t);
    var down := Step(s, Crash);
    StepKeeps(s, Crash);
    RecoverOne(down.db, |down.db.tasks|, t);
    RecoveredExactly(down, t);
  }

  /** The stored description is empty exactly when the model answered with white space only. */
  lemma CleanEmpties(raw: string)
    ensures Clean(raw) == "" <==> Whitespace.IsBlank(raw)
  {
    var d := Whitespace.Strip(raw);
    Whitespace.StripEmpties(raw);
    if |d| > 800 {
      Whitespace.StripEmpties(d[..800]);
      assert d[..800][0] == d[0];
    }
  }

  lemma {:induction false} RunStep(audios: seq<string>, events: seq<Event>, e: Event)
    ensures Run(audios, events + [e]) == Step(Run(audios, events), e)
  {
    assert (events + [e])[..|events|] == events;
  }

  // ---------------------------------------------------------------------------------------------
  // Runs that show the exceptions
  // ---------------------------------------------------------------------------------------------

  /** The worker claims the only task and finds no cancel request. */
  function OpeningEvent(n: nat): Event
    requires n < 4
  {
    if n == 0 then EnqueueCall(0, true) else if n == 1 then Select else if n == 2 then Claim else Check
  }

  function Opening(n: nat): seq<Event>
    requires n <= 4
  {
    if n == 0 then [] else Opening(n - 1) + [OpeningEvent(n - 1)]
  }

  /** One audio item and its task. */
  function One(audio: AudioStatus, status: Status, output: Output, w: Worker, log: seq<Effect>): System {
    System(Db([Audio(audio, "")], [Task(0, status, output, 0)]), w, log)
  }

  lemma {:induction false} NothingRun()
    ensures Run([""], []) == System(Db([Audio(Untouched, "")], []), Idle, [])
  {
    assert Run([""], []).db.audios[0] == Audio(Untouched, "") && |Run([""], []).db.audios| == 1;
  }

  lemma {:induction false} FirstTask()
    ensures Db([Audio(Untouched, "")], []).Enqueue(0, true) ==
            Ok(Db([Audio(Is(Pending), "")], [Task(0, Pending, NoOutput, 0)]))
  {
    var db := Db([Audio(Untouched, "")], []);
    assert !db.HasActive(0, -1);
    assert db.audios[0 := Audio(Is(Pending), "")] == [Audio(Is(Pending), "")];
    assert [] + [Task(0, Pending, NoOutput, 0)] == [Task(0, Pending, NoOutput, 0)];
  }

  lemma {:induction false} FirstQueued()
    ensures Run([""], Opening(1)) == One(Is(Pending), Pending, NoOutput, Idle, [Queued(0)])
  {
    NothingRun();
    FirstTask();
    assert Opening(0) == [] && Opening(1) == [] + [EnqueueCall(0, true)];
    RunStep([""], [], EnqueueCall(0, true));
  }

  lemma {:induction false} Opened()
    ensures Run([""], Opening(4)) == One(Is(Pending), Running, NoOutput, Holds(0, Checked), [Queued(0), Claimed(0)])
  {
    FirstQueued();
    RunStep([""], Opening(1), Select);
    RunStep([""], Opening(2), Claim);
    assert Run([""], Opening(3)) == One(Is(Pending), Running, NoOutput, Holds(0, Start), [Queued(0), Claimed(0)]);
    RunStep([""], Opening(3), Check);
  }

  /** A request that comes right after the first check: the audio item is marked running over it. */
  lemma {:induction false} RequestIsHidden()
    ensures var s := Run([""], Opening(4) + [CancelCall(0)] + [Begin(true)]);
            && s.db.tasks == [Task(0, CancelRequested, NoOutput, 0)]
            && AudioShows(s.db, 0, Running)
  {
    Opened();
    RunStep([""], Opening(4), CancelCall(0));
    assert Run([""], Opening(4) + [CancelCall(0)]) ==
           One(Is(CancelRequested), CancelRequested, NoOutput, Holds(0, Checked),
               [Queued(0), Claimed(0), Requested(0)]);
    RunStep([""], Opening(4) + [CancelCall(0)], Begin(true));
  }

  /** The handler goes on and stores a description of one space. */
  function Answer(): seq<Event> {
    Opening(4) + [Begin(true)] + [Reply(true)] + [Parse(Some(" "))]
  }

  function Store(): seq<Event> {
    Answer() + [Check] + [Commit(true)]
  }

  const BLANK_PARSED := One(Is(Running), Running, Raw, Holds(0, Parsed("")), [Queued(0), Claimed(0), Began(0)])
  const BLANK_STORED :=
    One(Is(Done), Running, Full(""), Holds(0, Committed), [Queued(0), Claimed(0), Began(0), Wrote(0, "")])

  lemma {:induction false} BlankAnswered()
    ensures Run([""], Answer()) == BLANK_PARSED
  {
    Opened();
    BlankAnswerTo(Opening(4));
  }

  lemma {:induction false} BlankAnswerTo(e: seq<Event>)
    requires Run([""], e) == One(Is(Pending), Running, NoOutput, Holds(0, Checked), [Queued(0), Claimed(0)])
    ensures Run([""], e + [Begin(true)] + [Reply(true)] + [Parse(Some(" "))]) == BLANK_PARSED
  {
    RunStep([""], e, Begin(true));
    assert Run([""], e + [Begin(true)]) ==
           One(Is(Running), Running, NoOutput, Holds(0, Calling), [Queued(0), Claimed(0), Began(0)]);
    RunStep([""], e + [Begin(true)], Reply(true));
    RunStep([""], e + [Begin(true)] + [Reply(true)], Parse(Some(" ")));
    CleanEmpties(" ");
  }

  lemma {:induction false} BlankStored()
    ensures Run([""], Store()) == BLANK_STORED
  {
    BlankAnswered();
    StoreAfter(Answer());
  }

  lemma {:induction false} StoreAfter(e: seq<Event>)
    requires Run([""], e) == BLANK_PARSED
    ensures Run([""], e + [Check] + [Commit(true)]) == BLANK_STORED
  {
    RunStep([""], e, Check);
    assert Run([""], e + [Check]) ==
           One(Is(Running), Running, Raw, Holds(0, Cleared("")), [Queued(0), Claimed(0), Began(0)]);
    RunStep([""], e + [Check], Commit(true));
  }

  /** A description of one space passes the emptiness check, is stored as the empty text, and makes the
      task done, unless the process stops before that is recorded: then recovery fails it. */
  lemma {:induction false} BlankDescriptionIsLost()
    ensures BothShow(Run([""], Store() + [Finish]).db, 0, Done)
    ensures BothShow(Run([""], Store() + [Crash] + [Restart]).db, 0, Failed)
  {
    BlankStored();
    BlankEnds(Store());
  }

  lemma {:induction false} BlankEnds(e: seq<Event>)
    requires Run([""], e) == BLANK_STORED
    ensures BothShow(Run([""], e + [Finish]).db, 0, Done)
    ensures BothShow(Run([""], e + [Crash] + [Restart]).db, 0, Failed)
  {
    RunStep([""], e, Finish);
    CommitSurvivesCrash([""], e);
    RunStep([""], e, Crash);
    RunStep([""], e + [Crash], Restart);
    RecoveryExact([""], e + [Crash], 0);
  }
}
