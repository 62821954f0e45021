/** Pausing, resuming, cancelling and waking one job: job_pause_point_locked, job_enter_cond_locked
    and their callers in job.c, and the writers of the pause state in blockjob.c.  Each stretch that
    holds the job lock is one step; the coroutine releases it while it yields and while driver code
    runs.  The driver's callbacks for resuming and cancelling are part of the step that makes them. */
module JobPause {
  import opened Basics
  import opened JobStatus

  /** Where the job's coroutine is. */
  datatype Where =
    | Unborn
    | Entering                  // job_start has run, job_co_entry has not
    | Working                   // in driver code
    | AskedToPause              // in the driver's pause callback
    | Sleeping                  // yielded in job_yield or job_sleep_ns
    | PausedAt(saved: Status)   // yielded in job_pause_point_locked
    | Returned                  // job_exit is scheduled
    | Exited

  /** What can happen to a job. */
  datatype Event =
    | StartEvent | RunEvent(hasPause: bool) | PauseRealEvent | YieldEvent(timed: bool, hasPause: bool)
    | ReadyEvent | ReturnEvent
    | TimerEvent | ExitEvent(failed: bool) | AdvanceEvent(status: Status)
    | UserPauseEvent | UserResumeEvent | DrainBeginEvent | DrainEndEvent | ErrorEvent
    | CancelEvent(force: bool) | EnterEvent

  /** What a run shows of the job whenever the lock is free. */
  datatype Snap = Snap(started: bool, paused: bool, busy: bool, completed: bool, pauseCount: int, force: bool,
                       userPaused: bool, ioError: bool, drains: nat)

  /** The pause count is accounted for, nobody waits for a wake-up that is not coming, and a drained
      job that is not busy is paused. */
  predicate SnapOk(s: Snap) {
    && s.pauseCount == Bit(!s.started) + Bit(s.userPaused) + s.drains && (s.ioError ==> s.userPaused)
    && (s.started && s.paused && (s.pauseCount == 0 || s.force) ==> s.busy)
    && (s.drains > 0 && !s.busy && !s.completed ==> s.paused)
  }

  predicate StepOk(a: Snap, b: Snap) {
    && (a.started ==> b.started)
    && (a.started && a.paused && !b.paused ==> a.pauseCount == 0 || a.force)
    && (b.started && !a.paused && b.paused ==> b.pauseCount > 0 && !b.force)
  }

  ghost predicate TraceOk(trace: seq<Snap>) {
    && trace != []
    && (forall i :: 0 <= i < |trace| ==> SnapOk(trace[i]))
    && (forall i :: 0 <= i < |trace| - 1 ==> StepOk(trace[i], trace[i + 1]))
  }

  /** No transient unpause: as long as somebody asks for the pause and nobody force-cancels, a paused
      job stays paused, whatever else happens. */
  lemma {:induction false} StaysPaused(trace: seq<Snap>, i: nat, j: nat)
    requires TraceOk(trace) && i <= j < |trace| && trace[i].started && trace[i].paused
    requires forall k :: i <= k < j ==> trace[k].pauseCount > 0 && !trace[k].force
    ensures trace[j].started && trace[j].paused
    decreases j
  {
    if i < j {
      StaysPaused(trace, i, j - 1);
      assert StepOk(trace[j - 1], trace[j - 1 + 1]);
    }
  }

  class Job {
    var status: Status
    var at: Where
    var busy: bool
    var paused: bool
    var pauseCount: int
    var userPaused: bool
    var cancelled: bool
    var forceCancel: bool
    var deferred: bool
    var timerPending: bool
    var ioError: bool
    var drains: nat             // drained sections that are open

    /** job_create */
    constructor ()
      ensures Inv() && status == Created && at == Unborn && drains == 0
    {
      status, at, busy, paused, pauseCount := Created, Unborn, false, true, 1;
      userPaused, cancelled, forceCancel, deferred := false, false, false, false;
      timerPending, ioError, drains := false, false, 0;
    }

    // -------------------------------------------------------------- invariants

    /** The pause count is made of exactly these requests, and an I/O error is a user pause. */
    ghost predicate PauseConserved()
      reads this
    {
      pauseCount == Bit(at.Unborn?) + Bit(userPaused) + drains && (ioError ==> userPaused)
    }

    /** Whoever has to run has been woken. */
    ghost predicate NoLostWake()
      reads this
    {
      && (at.PausedAt? && (pauseCount == 0 || forceCancel) ==> busy)
      && (at.Sleeping? && (pauseCount > 0 || forceCancel) ==> busy)
    }

    /** What the fields say about the coroutine. */
    ghost predicate Consistent()
      reads this
    {
      && (forceCancel ==> cancelled) && (timerPending ==> at.Sleeping? && !busy)
      && match at
         case Unborn => !busy && (status.Created? || Completed(status)) && (status.Created? ==> paused && !deferred)
         case Entering => busy && !paused && !deferred && status.Running?
         case Working => busy && !paused && !deferred && (status.Running? || status.Ready?)
         case AskedToPause => busy && !paused && !deferred && (status.Running? || status.Ready?)
         case Sleeping => !paused && !deferred && (status.Running? || status.Ready?)
         case PausedAt(saved) =>
           paused && !deferred && ((saved.Running? && status.Paused?) || (saved.Ready? && status.Standby?))
         case Returned => busy && !paused && deferred && (status.Running? || status.Ready?)
         case Exited => !busy && !paused && deferred && Completed(status)
    }

    ghost predicate Inv()
      reads this
    {
      PauseConserved() && NoLostWake() && Consistent()
    }

    /** A started job leaves the pause only when nobody asks for it or it is being force-cancelled, and
        enters it only when somebody asks for it. */
    twostate predicate Continuity()
      reads this
    {
      StepOk(old(Snapshot()), Snapshot())
    }

    /** What drained_poll tells the block layer is true: once a drain has begun, a started job that
        is not busy and not completed is paused, as job_set_aio_context asserts. */
    lemma QuiescentIsPaused()
      requires Inv() && drains > 0 && !busy && !Completed(status)
      ensures paused
    {
    }

    // -------------------------------------------------------------- waking

    /** job_state_transition_locked */
    method Transition(s: Status)
      requires Allowed(status, s)
      modifies this`status
      ensures status == s
    {
      status := s;
    }

    /** job_enter_cond_locked; `onlyIfIdle` is job_timer_not_pending_locked. */
    method EnterCond(onlyIfIdle: bool)
      modifies this`busy, this`timerPending
      ensures var wakes := !at.Unborn? && !deferred && !old(busy) && !(onlyIfIdle && old(timerPending));
              busy == (old(busy) || wakes) && timerPending == (old(timerPending) && !wakes)
    {
      if at.Unborn? {
        return;
      }
      if deferred {
        return;
      }
      if busy {
        return;
      }
      if onlyIfIdle && timerPending {
        return;
      }
      timerPending := false;
      busy := true;
    }

    /** job_enter */
    method Enter()
      requires Inv()
      modifies this`busy, this`timerPending
      ensures Inv() && Continuity() && drains == old(drains)
      ensures !at.Unborn? && !deferred ==> busy
      ensures at.Unborn? || deferred ==> busy == old(busy) && timerPending == old(timerPending)
    {
      EnterCond(false);
    }

    /** job_sleep_timer_cb */
    method TimerFires()
      requires Inv() && timerPending
      modifies this`busy, this`timerPending
      ensures Inv() && Continuity() && drains == old(drains) && busy
      ensures !timerPending
    {
      timerPending := false;
      EnterCond(false);
    }

    // -------------------------------------------------------------- the coroutine

    /** job_start */
    method Start()
      requires Inv() && at.Unborn? && status.Created?
      modifies this`at, this`pauseCount, this`busy, this`paused, this`status
      ensures Inv() && Continuity() && drains == old(drains) && at == Entering
      ensures pauseCount == old(pauseCount) - 1
    {
      at := Entering;
      pauseCount := pauseCount - 1;
      busy := true;
      paused := false;
      Transition(Running);
    }

    /** job_pause_point_locked up to the driver's pause callback, or to the yield if there is none. */
    method PausePoint(hasPause: bool)
      requires Inv() && busy && (at.Entering? || at.Working? || at.Sleeping?)
      modifies this`at, this`status, this`paused, this`busy
      ensures Inv() && Continuity() && drains == old(drains)
      ensures pauseCount == 0 || forceCancel ==> at == Working
      ensures pauseCount > 0 && !forceCancel ==> if hasPause then at == AskedToPause else at.PausedAt? && paused
    {
      at := Working;
      if pauseCount <= 0 {
        return;
      }
      if forceCancel {
        return;
      }
      at := AskedToPause;
      if !hasPause {
        PauseReally();
      }
    }

    /** job_pause_point_locked after the driver's pause callback, up to the first yield. */
    method PauseReally()
      requires Inv() && at.AskedToPause?
      modifies this`at, this`status, this`paused, this`busy
      ensures Inv() && Continuity() && drains == old(drains) && pauseCount == old(pauseCount)
      ensures forceCancel == old(forceCancel)
      ensures if pauseCount > 0 && !forceCancel then at == PausedAt(old(status)) && paused && !busy else at == Working
    {
      if pauseCount > 0 && !forceCancel {
        at := PausedAt(status);
        Transition(if status == Ready then Standby else Paused);
        paused := true;
        busy := false;
      } else {
        at := Working;
      }
    }

    /** One turn of the pause loop, once the coroutine has been woken. */
    method WakeInPause()
      requires Inv() && at.PausedAt? && busy
      modifies this`at, this`status, this`paused, this`busy
      ensures Inv() && Continuity() && drains == old(drains)
      ensures if pauseCount > 0 && !forceCancel then paused && !busy && at == old(at)
              else !paused && at == Working && status == old(at).saved
    {
      if pauseCount > 0 && !forceCancel {
        busy := false;
      } else {
        paused := false;
        Transition(at.saved);
        at := Working;
      }
    }

    /** job_yield and job_sleep_ns. */
    method Yield(timed: bool, hasPause: bool)
      requires Inv() && at.Working?
      modifies this`at, this`status, this`paused, this`busy, this`timerPending
      ensures Inv() && Continuity() && drains == old(drains)
      ensures forceCancel ==> at == Working && busy
      ensures !forceCancel && pauseCount == 0 ==> at == Sleeping && !busy && timerPending == timed
      ensures !forceCancel && pauseCount > 0 ==> if hasPause then at == AskedToPause else at.PausedAt? && paused
    {
      if forceCancel {
        return;
      }
      if pauseCount <= 0 {
        timerPending := timed;
        busy := false;
        at := Sleeping;
      } else {
        PausePoint(hasPause);
      }
    }

    /** The coroutine runs on from wherever it is. */
    method RunOn(hasPause: bool)
      requires Inv() && busy && (at.Entering? || at.Working? || at.Sleeping? || at.PausedAt?)
      modifies this`at, this`status, this`paused, this`busy
      ensures Inv() && Continuity() && drains == old(drains)
      ensures pauseCount == 0 || forceCancel ==> at == Working
      ensures pauseCount > 0 && !forceCancel && !hasPause ==> at.PausedAt?
    {
      if at.PausedAt? {
        WakeInPause();
      } else {
        PausePoint(hasPause);
      }
    }

    /** job_transition_to_ready, which a driver calls once. */
    method GetReady()
      requires Inv() && at.Working? && status.Running?
      modifies this`status
      ensures Inv() && Continuity() && drains == old(drains) && status == Ready
    {
      Transition(Ready);
    }

    /** The end of job_co_entry. */
    method Return()
      requires Inv() && at.Working?
      modifies this`deferred, this`busy, this`at
      ensures Inv() && Continuity() && drains == old(drains) && deferred
      ensures at == Returned
    {
      deferred := true;
      busy := true;
      at := Returned;
    }

    /** job_exit: the job is completed in the same breath. */
    method Exit(failed: bool)
      requires Inv() && at.Returned?
      modifies this`busy, this`status, this`at
      ensures Inv() && Continuity() && drains == old(drains) && Completed(status)
      ensures at == Exited && status == if failed then Aborting else Waiting
    {
      busy := false;
      Transition(if failed then Aborting else Waiting);
      at := Exited;
    }

    /** The later transitions of a completed job, up to job_do_dismiss_locked, and the failure of one
        that was never started. */
    method Advance(s: Status)
      requires Inv() && (at.Unborn? || at.Exited?) && Allowed(status, s) && Completed(s)
      modifies this`status, this`busy, this`paused, this`deferred
      ensures Inv() && Continuity() && drains == old(drains) && status == s
    {
      Transition(s);
      if s.Null? {
        busy := false;
        paused := false;
        deferred := true;
      }
    }

    // -------------------------------------------------------------- the API

    /** job_pause_locked */
    method PauseLocked()
      modifies this`pauseCount, this`busy, this`timerPending
      ensures pauseCount == old(pauseCount) + 1
      ensures var wakes := !paused && !at.Unborn? && !deferred && !old(busy);
              busy == (old(busy) || wakes) && timerPending == (old(timerPending) && !wakes)
    {
      pauseCount := pauseCount + 1;
      if !paused {
        EnterCond(false);
      }
    }

    /** job_resume_locked: the precondition is its assertion. */
    method ResumeLocked()
      requires pauseCount > 0
      modifies this`pauseCount, this`busy, this`timerPending
      ensures pauseCount == old(pauseCount) - 1
      ensures var wakes := pauseCount == 0 && !at.Unborn? && !deferred && !old(busy) && !old(timerPending);
              busy == (old(busy) || wakes) && timerPending == (old(timerPending) && !wakes)
    {
      pauseCount := pauseCount - 1;
      if pauseCount != 0 {
        return;
      }
      EnterCond(true);
    }

    /** child_job_drained_begin */
    method DrainBegin()
      requires Inv()
      modifies this`pauseCount, this`busy, this`timerPending, this`drains
      ensures Inv() && Continuity() && drains == old(drains) + 1 && paused == old(paused)
    {
      PauseLocked();
      drains := drains + 1;
    }

    /** child_job_drained_end */
    method DrainEnd()
      requires Inv() && drains > 0
      modifies this`pauseCount, this`busy, this`timerPending, this`drains
      ensures Inv() && Continuity() && drains == old(drains) - 1 && paused == old(paused)
    {
      ResumeLocked();
      drains := drains - 1;
    }

    /** job_user_pause_locked */
    method UserPause() returns (ok: bool)
      requires Inv()
      modifies this`userPaused, this`pauseCount, this`busy, this`timerPending
      ensures Inv() && Continuity() && drains == old(drains)
      ensures ok <==> VerbAllowed(Pause, old(status)) && !old(userPaused)
      ensures userPaused == (old(userPaused) || ok)
      ensures pauseCount == old(pauseCount) + Bit(ok)
    {
      if !VerbAllowed(Pause, status) {
        return false;
      }
      if userPaused {
        return false;
      }
      userPaused := true;
      PauseLocked();
      return true;
    }

    /** job_user_resume_locked with block_job_user_resume; whoever is user-paused can be resumed as
        long as the verb is allowed. */
    method UserResume() returns (ok: bool)
      requires Inv()
      modifies this`userPaused, this`ioError, this`pauseCount, this`busy, this`timerPending
      ensures Inv() && Continuity() && drains == old(drains)
      ensures ok <==> old(userPaused) && VerbAllowed(Resume, old(status))
      ensures ok ==> !userPaused && !ioError
      ensures !ok ==> userPaused == old(userPaused) && ioError == old(ioError)
      ensures pauseCount == old(pauseCount) - Bit(ok)
    {
      if !userPaused || pauseCount <= 0 {
        return false;
      }
      if !VerbAllowed(Resume, status) {
        return false;
      }
      IostatusReset();
      userPaused := false;
      ResumeLocked();
      return true;
    }

    /** block_job_iostatus_reset_locked with its assertion. */
    method IostatusReset()
      requires ioError ==> userPaused && pauseCount > 0
      modifies this`ioError
      ensures !ioError
    {
      if !ioError {
        return;
      }
      assert userPaused && pauseCount > 0;
      ioError := false;
    }

    /** block_job_error_action when the action is to stop. */
    method ErrorStop()
      requires Inv()
      modifies this`userPaused, this`ioError, this`pauseCount, this`busy, this`timerPending
      ensures Inv() && Continuity() && drains == old(drains) && userPaused && ioError
      ensures pauseCount == old(pauseCount) + Bit(!old(userPaused))
    {
      if !userPaused {
        PauseLocked();
        userPaused := true;
      }
      ioError := true;
    }

    /** job_cancel_async_locked; the driver may turn a soft request into a forced one. */
    method CancelAsync(force: bool)
      requires PauseConserved()
      modifies this`ioError, this`userPaused, this`pauseCount, this`cancelled, this`forceCancel
      ensures PauseConserved() && !userPaused
      ensures (old(cancelled) ==> cancelled) && (old(forceCancel) ==> forceCancel) && (force ==> forceCancel)
      ensures (old(forceCancel) ==> old(cancelled)) ==> (forceCancel ==> cancelled)
      ensures (force || !deferred ==> cancelled) && !ioError && pauseCount == old(pauseCount) - Bit(old(userPaused))
    {
      var f: bool := *;
      if force { f := true; }
      if userPaused {
        IostatusReset();
        userPaused := false;
        assert pauseCount > 0;
        pauseCount := pauseCount - 1;
      }
      if f || !deferred {
        cancelled := true;
        forceCancel := forceCancel || f;
      }
    }

    /** job_cancel_locked as far as this job is concerned, and the cancellation by a sibling with the
        job_enter of job_finish_sync_locked. */
    method Cancel(force: bool)
      requires Inv()
      modifies this`status, this`busy, this`paused, this`deferred, this`ioError, this`userPaused
      modifies this`pauseCount, this`cancelled, this`forceCancel, this`timerPending
      ensures Inv() && Continuity() && drains == old(drains)
      ensures if old(status.Concluded?) then status == Null else force ==> forceCancel
      ensures !old(status.Concluded?) ==>
                !userPaused && pauseCount == old(pauseCount) - Bit(old(userPaused)) && (old(deferred) || cancelled)
      ensures !old(status.Concluded?) && !at.Unborn? && !deferred ==> busy
    {
      if status.Concluded? {
        Advance(Null);
        return;
      }
      CancelAsync(force);
      EnterCond(false);
    }

    // -------------------------------------------------------------- whole runs

    predicate Possible(ev: Event)
      reads this
    {
      match ev
      case StartEvent => at.Unborn? && status.Created?
      case RunEvent(_) => busy && (at.Entering? || at.Working? || at.Sleeping? || at.PausedAt?)
      case PauseRealEvent => at.AskedToPause?
      case YieldEvent(_, _) => at.Working?
      case ReadyEvent => at.Working? && status.Running?
      case ReturnEvent => at.Working?
      case TimerEvent => timerPending
      case ExitEvent(_) => at.Returned?
      case AdvanceEvent(s) => (at.Unborn? || at.Exited?) && Allowed(status, s) && Completed(s)
      case DrainEndEvent => drains > 0
      case _ => true
    }

    method Happen(ev: Event)
      requires Inv() && Possible(ev)
      modifies this
      ensures Inv() && Continuity()
      ensures drains == old(drains) + Bit(ev.DrainBeginEvent?) - Bit(ev.DrainEndEvent?)
    {
      match ev
      case StartEvent => Start();
      case RunEvent(hasPause) => RunOn(hasPause);
      case PauseRealEvent => PauseReally();
      case YieldEvent(timed, hasPause) => Yield(timed, hasPause);
      case ReadyEvent => GetReady();
      case ReturnEvent => Return();
      case TimerEvent => TimerFires();
      case ExitEvent(failed) => Exit(failed);
      case AdvanceEvent(s) => Advance(s);
      case UserPauseEvent => var ok := UserPause();
      case UserResumeEvent => var ok := UserResume();
      case DrainBeginEvent => DrainBegin();
      case DrainEndEvent => DrainEnd();
      case ErrorEvent => ErrorStop();
      case CancelEvent(force) => Cancel(force);
      case EnterEvent => Enter();
    }

    function Snapshot(): Snap
      reads this
    {
      Snap(!at.Unborn?, paused, busy, Completed(status), pauseCount, forceCancel, userPaused, ioError, drains)
    }

    /** Any interleaving of the coroutine, its timer, drains, users and cancellation; `trace` shows the
        job after every event. */
    method Run(events: seq<Event>) returns (ghost trace: seq<Snap>)
      requires Inv()
      modifies this
      ensures Inv() && TraceOk(trace) && |trace| == |events| + 1
      ensures trace[0] == old(Snapshot()) && trace[|events|] == Snapshot()
    {
      trace := [Snapshot()];
      for i := 0 to |events|
        invariant Inv() && TraceOk(trace) && |trace| == i + 1
        invariant trace[0] == old(Snapshot()) && trace[i] == Snapshot()
      {
        if Possible(events[i]) {
          Happen(events[i]);
        }
        trace := trace + [Snapshot()];
      }
    }
  }
}
