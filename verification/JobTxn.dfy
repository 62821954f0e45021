/** A transactional group of started jobs: completion, cancellation and finalisation in job.c.  Each
    call made with the job lock held is one step, and driver callbacks do not call back. */
module JobTxn {
  import opened Basics
  import opened JobStatus

  datatype Callback = CommitCall | AbortCall | CleanCall

  /** What the group logic uses of a Job.  `deferred` is deferred_to_main_loop; `calls` are the
      driver callbacks that have been made. */
  datatype Member = Member(status: Status, ret: int, deferred: bool, cancelled: bool, force: bool,
                           autoFinalize: bool, autoDismiss: bool, calls: seq<Callback>)

  const ECANCELED := 125

  /** How the group ended. */
  datatype Verdict = Open | AllCommitted | AllAborted | SiblingFailed(initiator: int, culprit: int)

  datatype Event =
    | ReturnEvent(j: int, ret: int)
    | ExitEvent(j: int)
    | StatusEvent(j: int, status: Status)
    | CancelEvent(j: int, force: bool)
    | FinalizeEvent(j: int)
    | DismissEvent(j: int)

  /** job_update_rc_locked */
  function Updated(x: Member): Member {
    var y := if x.ret == 0 && x.force then x.(ret := -ECANCELED) else x;
    if y.ret != 0 then y.(status := Aborting) else y
  }

  /** The result of job_finalize_single_locked. */
  function Finalized(x: Member): Member {
    var y := WithCalls(Updated(x));
    y.(status := if y.autoDismiss then Null else Concluded)
  }

  function WithCalls(x: Member): Member {
    x.(calls := x.calls + [if x.ret == 0 then CommitCall else AbortCall, CleanCall])
  }

  predicate RunningKind(s: Status) { s.Running? || s.Paused? || s.Ready? || s.Standby? }

  /** The coroutine is still at work, or has returned and job_exit is about to run. */
  predicate AtWork(x: Member) {
    RunningKind(x.status) && (if x.deferred then x.status.Running? || x.status.Ready? else x.ret == 0)
  }

  predicate Succeeded(x: Member) { (x.status.Waiting? || x.status.Pending?) && x.deferred && x.ret == 0 && !x.force }

  predicate Failed(x: Member) { x.status.Aborting? && x.ret != 0 && x.deferred }

  /** A member before its callbacks have been made. */
  predicate Live(x: Member) { x.calls == [] && (x.force ==> x.cancelled) && (AtWork(x) || Succeeded(x)) }

  /** A member that can only abort. */
  predicate Doomed(x: Member) {
    && x.calls == [] && (x.force ==> x.cancelled) && (x.deferred || AtWork(x))
    && ((x.force && (AtWork(x) || x.status.Waiting? || x.status.Pending?)) || Failed(x))
  }

  predicate Committed(x: Member) {
    x.calls == [CommitCall, CleanCall] && x.ret == 0 && !x.force && (x.status.Concluded? || x.status.Null?)
  }
  predicate Aborted(x: Member) {
    x.calls == [AbortCall, CleanCall] && x.ret != 0 && (x.status.Concluded? || x.status.Null?)
  }

  /** The verdict says what became of every member. */
  predicate Tells(v: Verdict, jobs: map<int, Member>) {
    match v
    case Open => forall j :: j in jobs ==> Live(jobs[j])
    case AllCommitted => forall j :: j in jobs ==> Committed(jobs[j])
    case AllAborted => forall j :: j in jobs ==> Aborted(jobs[j])
    case SiblingFailed(i, c) =>
      i != c && i in jobs && c in jobs && Committed(jobs[i]) && forall j :: j in jobs && j != i ==> Aborted(jobs[j])
  }

  predicate Uniform(jobs: map<int, Member>) {
    || (forall j :: j in jobs ==> jobs[j].calls == [CommitCall, CleanCall])
    || (forall j :: j in jobs ==> jobs[j].calls == [AbortCall, CleanCall])
  }

  /** The first job of the list whose prepare callback fails. */
  function FirstFailing(prepare: int -> int, list: seq<int>): Option<int> {
    if list == [] then None else if prepare(list[0]) != 0 then Some(list[0]) else FirstFailing(prepare, list[1..])
  }

  lemma {:induction false} NoneFailing(prepare: int -> int, list: seq<int>)
    ensures FirstFailing(prepare, list) == None <==> forall j :: j in list ==> prepare(j) == 0
    ensures FirstFailing(prepare, list).Some? ==>
              FirstFailing(prepare, list).value in list && prepare(FirstFailing(prepare, list).value) != 0
  {
    if list != [] {
      var rest := list[1..];
      NoneFailing(prepare, rest);
      assert list[0] in list && forall j :: j in list <==> j == list[0] || j in rest;
    }
  }

  lemma {:induction false} FailingAt(prepare: int -> int, list: seq<int>, i: nat)
    requires i < |list| && prepare(list[i]) != 0 && forall k :: 0 <= k < i ==> prepare(list[k]) == 0
    ensures FirstFailing(prepare, list) == Some(list[i])
  {
    if i > 0 {
      var rest := list[1..];
      assert forall k :: 0 <= k < i - 1 ==> rest[k] == list[k + 1];
      FailingAt(prepare, rest, i - 1);
    }
  }

  /** What becomes of a group of successful jobs that `job` finalises. */
  function FinalVerdict(prepare: int -> int, order: seq<int>, job: int): Verdict {
    match FirstFailing(prepare, order)
    case None => AllCommitted
    case Some(c) => if c == job then AllAborted else SiblingFailed(job, c)
  }

  /** How a group is decided: by the job that finalises it, or aborted before anybody does. */
  function Decision(prepare: int -> int, order: seq<int>, finalizer: Option<int>): Verdict {
    if finalizer.Some? then FinalVerdict(prepare, order, finalizer.value) else AllAborted
  }

  /** Group atomicity: a decided group is uniform if and only if it was aborted before it was
      finalised, or no prepare callback fails, or the first one to fail is that of the finalising
      job. */
  lemma UniformExactlyWhen(prepare: int -> int, order: seq<int>, finalizer: Option<int>, jobs: map<int, Member>)
    requires Tells(Decision(prepare, order, finalizer), jobs)
    ensures Uniform(jobs) <==>
              finalizer == None || FirstFailing(prepare, order) == None || FirstFailing(prepare, order) == finalizer
    ensures (forall j :: j in order ==> prepare(j) == 0) ==> Uniform(jobs)
  {
    NoneFailing(prepare, order);
    var v := Decision(prepare, order, finalizer);
    if v.SiblingFailed? {
      assert jobs[v.initiator].calls[0] == CommitCall && jobs[v.culprit].calls[0] == AbortCall;
    }
  }

  /** A force-cancelled job never commits, whatever the verdict. */
  lemma ForcedNeverCommits(v: Verdict, jobs: map<int, Member>, j: int)
    requires Tells(v, jobs) && j in jobs && jobs[j].force
    ensures CommitCall !in jobs[j].calls
  {
  }

  /** What a successful completion of `job` leads to: the others are waited for, or all wait for
      a manual finalisation, or the group is decided. */
  ghost predicate SuccessOutcome(before: map<int, Member>, after: map<int, Member>, job: int, v: Verdict,
                                 final: Verdict)
    requires job in before
  {
    if SomeoneElse(before, job) then v == Open && after == before[job := before[job].(status := Waiting)]
    else if SomeManual(before) then v == Open && AllPending(before, after)
    else v == final
  }

  predicate SomeoneElse(jobs: map<int, Member>, job: int) {
    exists j :: j in jobs && j != job && !Completed(jobs[j].status)
  }

  predicate SomeManual(jobs: map<int, Member>) { exists j :: j in jobs && !jobs[j].autoFinalize }

  ghost predicate AllPending(before: map<int, Member>, after: map<int, Member>) {
    after.Keys == before.Keys && forall j :: j in after ==> after[j] == before[j].(status := Pending)
  }

  lemma WaitingIsAlike(jobs: map<int, Member>, job: int)
    requires job in jobs
    ensures var waiting := jobs[job := jobs[job].(status := Waiting)];
            && (SomeManual(waiting) <==> SomeManual(jobs))
            && (forall after :: AllPending(waiting, after) ==> AllPending(jobs, after))
  {
    var waiting := jobs[job := jobs[job].(status := Waiting)];
    assert forall j :: j in jobs ==> waiting[j].autoFinalize == jobs[j].autoFinalize;
  }

  function CancelledBy(x: Member, f: bool): Member {
    if f || !x.deferred then x.(cancelled := true, force := x.force || f) else x
  }

  /** A member of a group that is about to be aborted. */
  predicate Abortable(x: Member) {
    x.calls == [] && (x.force ==> x.cancelled) && (AtWork(x) || Succeeded(x) || Failed(x))
  }

  /** A pending member that nobody has failed or cancelled. */
  predicate Spared(x: Member) { Live(x) && x.status.Pending? }

  ghost predicate Dooming(jobs: map<int, Member>, list: seq<int>, spared: set<int>) {
    forall j :: j in list ==> j in jobs && if j in spared then Spared(jobs[j]) else Doomed(jobs[j])
  }

  /** One job of a doomed group gets a step further towards its end. */
  lemma FinishStep(jobs: map<int, Member>, list: seq<int>, spared: set<int>, k: int, y: Member)
    requires Dooming(jobs, list, spared) && k in list && !Completed(jobs[k].status)
    requires (jobs[k].deferred && y == Updated(jobs[k]))
             || (!jobs[k].deferred
                 && exists s: Status, r ::
                      (s.Running? || s.Ready?) && y == jobs[k].(status := s, ret := r, deferred := true))
    ensures Dooming(jobs[k := y], list, spared)
    ensures Completed(y.status) || (!jobs[k].deferred && y.deferred)
  {
    assert k !in spared && Doomed(y);
  }

  /** Where job_completed_txn_abort_locked stands: the jobs in front of `list` are over. */
  ghost predicate AbortHalf(before: map<int, Member>, jobs: map<int, Member>, all: seq<int>, list: seq<int>,
                            spared: set<int>) {
    && jobs.Keys == before.Keys && NoDuplicates(all) && (forall j :: j in all ==> j in jobs)
    && |list| <= |all| && list == all[|all| - |list|..]
    && (forall j :: j in jobs && j !in all ==> jobs[j] == before[j])
    && Dooming(jobs, list, spared)
    && (forall i :: 0 <= i < |all| - |list| ==> Over(jobs[all[i]], all[i] in spared))
  }

  predicate Over(x: Member, spared: bool) { if spared then Committed(x) else Aborted(x) }

  lemma MemberOver(x: Member, spared: bool)
    requires Completed(x.status) && if spared then Spared(x) else Doomed(x)
    ensures Over(Finalized(x), spared)
    ensures x.status.Pending? || ((x.ret != 0 || x.force) && (x.status.Waiting? || x.status.Aborting?))
  {
  }

  lemma AbortStep(before: map<int, Member>, jobs: map<int, Member>, all: seq<int>, list: seq<int>, spared: set<int>)
    requires AbortHalf(before, jobs, all, list, spared) && list != [] && list[0] in jobs
    requires Completed(jobs[list[0]].status)
    ensures AbortHalf(before, jobs[list[0] := Finalized(jobs[list[0]])], all, list[1..], spared)
  {
    var d := |all| - |list|;
    var j := list[0];
    assert j == all[d] && j in list;
    MemberOver(jobs[j], j in spared);
    assert all[d + 1..] == list[1..];
    var rest := list[1..];
    forall k | k in rest ensures k != j && k in list { }
  }

  /** Waiting for a job changes nothing that is over. */
  lemma AbortWaited(before: map<int, Member>, jobs: map<int, Member>, jobs': map<int, Member>, all: seq<int>,
                    list: seq<int>, spared: set<int>)
    requires AbortHalf(before, jobs, all, list, spared) && jobs'.Keys == jobs.Keys && Dooming(jobs', list, spared)
    requires forall j :: j in jobs && j !in list ==> jobs'[j] == jobs[j]
    ensures AbortHalf(before, jobs', all, list, spared)
  {
    forall i | 0 <= i < |all| - |list| ensures all[i] !in list { }
  }

  lemma AbortDone(before: map<int, Member>, jobs: map<int, Member>, all: seq<int>, spared: set<int>)
    requires AbortHalf(before, jobs, all, [], spared)
    ensures AbortResult(before, jobs, all, spared)
  {
    forall j | j in all ensures Over(jobs[j], j in spared) {
      var i :| 0 <= i < |all| && all[i] == j;
    }
  }

  /** Every job of the group has been aborted, except the spared ones, which were committed. */
  ghost predicate AbortResult(before: map<int, Member>, after: map<int, Member>, list: seq<int>, spared: set<int>) {
    && after.Keys == before.Keys
    && (forall j :: j in after && j !in list ==> after[j] == before[j])
    && (forall j :: j in list && j in after ==> Over(after[j], j in spared))
  }

  function AtWorkSet(jobs: map<int, Member>, list: seq<int>): set<int> {
    set j | j in list && j in jobs && !Completed(jobs[j].status)
  }

  function NotDeferredSet(jobs: map<int, Member>, list: seq<int>): set<int> {
    set j | j in list && j in jobs && !jobs[j].deferred
  }

  /** Fewer jobs are at work, or as many and fewer of their coroutines. */
  predicate Less(after: map<int, Member>, before: map<int, Member>, list: seq<int>) {
    AtWorkSet(after, list) < AtWorkSet(before, list)
    || (AtWorkSet(after, list) == AtWorkSet(before, list) && NotDeferredSet(after, list) < NotDeferredSet(before, list))
  }

  lemma FewerLeft(before: map<int, Member>, after: map<int, Member>, list: seq<int>, k: int)
    requires k in list && k in before && !Completed(before[k].status) && after.Keys == before.Keys
    requires forall j :: j in before && j != k ==> after[j] == before[j]
    requires Completed(after[k].status) || (!before[k].deferred && after[k].deferred)
    ensures Less(after, before, list)
  {
    assert k in AtWorkSet(before, list);
    if Completed(after[k].status) {
      assert k !in AtWorkSet(after, list);
    } else {
      assert k in NotDeferredSet(before, list) && k !in NotDeferredSet(after, list);
    }
  }

  class JobTxn {
    var jobs: map<int, Member>
    var list: seq<int>
    var aborting: bool
    const prepare: int -> int   // what the jobs' prepare callbacks return
    ghost const order: seq<int> // the list as it was in the beginning
    ghost var verdict: Verdict
    ghost var finalizer: Option<int>

    /** A group of freshly started jobs. */
    constructor (members: map<int, Member>, order: seq<int>, prepare: int -> int)
      requires NoDuplicates(order) && (forall j :: j in order <==> j in members) && order != []
      requires forall j :: j in members ==>
                             members[j].status.Running? && members[j].ret == 0 && !members[j].deferred
                             && !members[j].cancelled && !members[j].force && members[j].calls == []
      ensures Inv() && jobs == members && list == order && verdict == Open && this.order == order
      ensures this.prepare == prepare
    {
      this.order, this.prepare := order, prepare;
      jobs, list, aborting, verdict, finalizer := members, order, false, Open, None;
    }

    ghost predicate ListOk()
      reads this
    {
      NoDuplicates(list) && (forall j :: j in list ==> j in jobs) && forall k :: 0 <= k < |list| ==> list[k] in jobs
    }

    /** What holds whenever no call is under way. */
    ghost predicate Inv()
      reads this
    {
      && ListOk() && Tells(verdict, jobs)
      && (forall j :: j in jobs <==> j in order)
      && (verdict == Open ==> !aborting && list != [] && list == order && finalizer == None)
      && (verdict != Open ==> list == [] && verdict == Decision(prepare, order, finalizer))
      && (verdict == Open ==>
            forall i, j :: i in jobs && j in jobs && jobs[i].status.Pending? ==> jobs[j].status.Pending?)
    }

    // -------------------------------------------------------------- single steps

    /** job_state_transition_locked: the precondition is its assertion. */
    method Transition(j: int, s: Status)
      requires j in jobs && Allowed(jobs[j].status, s)
      modifies this`jobs
      ensures jobs == old(jobs)[j := old(jobs)[j].(status := s)]
    {
      jobs := jobs[j := jobs[j].(status := s)];
    }

    /** job_update_rc_locked */
    method UpdateRc(j: int)
      requires j in jobs && ((jobs[j].ret != 0 || jobs[j].force) ==> Allowed(jobs[j].status, Aborting))
      modifies this`jobs
      ensures jobs == old(jobs)[j := Updated(old(jobs)[j])]
    {
      if jobs[j].ret == 0 && jobs[j].force {
        jobs := jobs[j := jobs[j].(ret := -ECANCELED)];
      }
      if jobs[j].ret != 0 {
        Transition(j, Aborting);
      }
      assert jobs == old(jobs)[j := Updated(old(jobs)[j])];
    }

    /** job_finalize_single_locked for the first job of the list. */
    method FinalizeSingle(j: int)
      requires list != [] && j == list[0] && j in jobs && Completed(jobs[j].status)
      requires jobs[j].status.Pending?
               || ((jobs[j].ret != 0 || jobs[j].force) && (jobs[j].status.Waiting? || jobs[j].status.Aborting?))
      modifies this`jobs, this`list
      ensures jobs == old(jobs)[j := Finalized(old(jobs)[j])] && list == old(list)[1..]
    {
      UpdateRc(j);
      Callbacks(j);
      list := list[1..];
      Conclude(j);
      assert jobs == old(jobs)[j := Finalized(old(jobs)[j])];
    }

    /** job_commit or job_abort, then job_clean. */
    method Callbacks(j: int)
      requires j in jobs
      modifies this`jobs
      ensures jobs == old(jobs)[j := WithCalls(old(jobs)[j])]
    {
      var x := jobs[j];
      var calls := x.calls;
      if x.ret == 0 {
        calls := calls + [CommitCall];
      } else {
        calls := calls + [AbortCall];
      }
      calls := calls + [CleanCall];
      assert calls == WithCalls(x).calls;
      jobs := jobs[j := x.(calls := calls)];
    }

    /** job_conclude_locked */
    method Conclude(j: int)
      requires j in jobs && Allowed(jobs[j].status, Concluded)
      modifies this`jobs
      ensures jobs == old(jobs)[j := old(jobs)[j].(status := if old(jobs)[j].autoDismiss then Null else Concluded)]
    {
      Transition(j, Concluded);
      if jobs[j].autoDismiss {
        Transition(j, Null);
        assert jobs == old(jobs)[j := old(jobs)[j].(status := Null)];
      }
    }

    /** job_cancel_async_locked; the driver may turn a soft request into a forced one. */
    method CancelAsync(j: int, force: bool)
      requires j in jobs
      modifies this`jobs
      ensures exists f: bool :: (force ==> f) && jobs == old(jobs)[j := CancelledBy(old(jobs)[j], f)]
    {
      var f: bool := *;
      if force { f := true; }
      if f || !jobs[j].deferred {
        jobs := jobs[j := jobs[j].(cancelled := true, force := jobs[j].force || f)];
      }
      assert jobs == old(jobs)[j := CancelledBy(old(jobs)[j], f)];
    }

    // -------------------------------------------------------------- aborting the group

    /** The first half of job_completed_txn_abort_locked. */
    method CancelOthers(job: int, ghost spared: set<int>)
      requires ListOk() && job in list && spared <= {job}
      requires forall j :: j in list && j != job ==> Abortable(jobs[j])
      requires if job in spared then Spared(jobs[job]) else Doomed(jobs[job])
      modifies this`jobs
      ensures Dooming(jobs, list, spared) && jobs.Keys == old(jobs).Keys
      ensures forall j :: j in jobs && j !in list ==> jobs[j] == old(jobs)[j]
    {
      for i := 0 to |list|
        invariant jobs.Keys == old(jobs).Keys
        invariant forall j :: j in jobs && j !in list ==> jobs[j] == old(jobs)[j]
        invariant forall k :: i <= k < |list| ==> jobs[list[k]] == old(jobs)[list[k]]
        invariant forall k :: 0 <= k < i ==> if list[k] in spared then Spared(jobs[list[k]]) else Doomed(jobs[list[k]])
      {
        var other := list[i];
        if other != job {
          CancelAsync(other, true);
        }
      }
    }

    /** job_completed_txn_abort_locked.  `spared` holds the initiating job if that one is neither
        failed nor cancelled. */
    method TxnAbort(job: int, ghost spared: set<int>)
      requires !aborting ==> ListOk() && job in list && spared <= {job}
      requires !aborting ==> forall j :: j in list && j != job ==> Abortable(jobs[j])
      requires !aborting ==> if job in spared then Spared(jobs[job]) else Doomed(jobs[job])
      modifies this
      ensures aborting && verdict == old(verdict) && finalizer == old(finalizer)
      ensures old(aborting) ==> jobs == old(jobs) && list == old(list)
      ensures !old(aborting) ==> list == [] && AbortResult(old(jobs), jobs, old(list), spared)
      decreases if aborting then 0 else 1, 1, 0
    {
      if aborting {
        return;
      }
      aborting := true;
      CancelOthers(job, spared);
      assert list == list[0..];
      while list != []
        invariant aborting && verdict == old(verdict) && finalizer == old(finalizer)
        invariant AbortHalf(old(jobs), jobs, old(list), list, spared)
        decreases |list|
      {
        AbortFirst(old(jobs), old(list), spared);
      }
      AbortDone(old(jobs), jobs, old(list), spared);
    }

    /** One turn of the second loop of job_completed_txn_abort_locked. */
    method AbortFirst(ghost before: map<int, Member>, ghost all: seq<int>, ghost spared: set<int>)
      requires aborting && list != [] && AbortHalf(before, jobs, all, list, spared)
      modifies this
      ensures aborting && verdict == old(verdict) && finalizer == old(finalizer) && list == old(list)[1..]
      ensures AbortHalf(before, jobs, all, list, spared)
      decreases 0, 10
    {
      AwaitFirst(before, all, spared);
      FinalizeFirst(before, all, spared);
    }

    method AwaitFirst(ghost before: map<int, Member>, ghost all: seq<int>, ghost spared: set<int>)
      requires aborting && list != [] && AbortHalf(before, jobs, all, list, spared)
      modifies this
      ensures aborting && verdict == old(verdict) && finalizer == old(finalizer) && list == old(list)
      ensures AbortHalf(before, jobs, all, list, spared) && list[0] in jobs && Completed(jobs[list[0]].status)
      decreases 0, 9
    {
      var other := list[0];
      assert other in list;
      if !Completed(jobs[other].status) {
        assert jobs[other].cancelled;
        FinishSync(other, spared);
        AbortWaited(before, old(jobs), jobs, all, list, spared);
      }
    }

    method FinalizeFirst(ghost before: map<int, Member>, ghost all: seq<int>, ghost spared: set<int>)
      requires list != [] && AbortHalf(before, jobs, all, list, spared) && list[0] in jobs
      requires Completed(jobs[list[0]].status)
      modifies this`jobs, this`list
      ensures list == old(list)[1..] && AbortHalf(before, jobs, all, list, spared)
    {
      var j := list[0];
      assert j in list;
      AbortStep(before, jobs, all, list, spared);
      MemberOver(jobs[j], j in spared);
      FinalizeSingle(j);
    }

    /** job_finish_sync_locked: other jobs of the group may finish as well before this one does. */
    method FinishSync(other: int, ghost spared: set<int>)
      requires aborting && ListOk() && other in list && Dooming(jobs, list, spared) && !Completed(jobs[other].status)
      modifies this
      ensures verdict == old(verdict) && finalizer == old(finalizer)
      ensures aborting && list == old(list) && ListOk() && Dooming(jobs, list, spared) && Completed(jobs[other].status)
      ensures jobs.Keys == old(jobs).Keys && forall j :: j in jobs && j !in list ==> jobs[j] == old(jobs)[j]
      decreases 0, 8
    {
      while !Completed(jobs[other].status)
        invariant verdict == old(verdict) && finalizer == old(finalizer)
        invariant aborting && list == old(list) && ListOk() && Dooming(jobs, list, spared)
        invariant jobs.Keys == old(jobs).Keys && forall j :: j in jobs && j !in list ==> jobs[j] == old(jobs)[j]
        decreases AtWorkSet(jobs, list), NotDeferredSet(jobs, list)
      {
        var k :| k in list && !Completed(jobs[k].status);
        OneMoves(k, spared);
      }
    }

    /** Job `k` gets a step further: its coroutine ends, or its job_exit runs. */
    method OneMoves(k: int, ghost spared: set<int>)
      requires aborting && ListOk() && k in list && Dooming(jobs, list, spared) && !Completed(jobs[k].status)
      modifies this
      ensures aborting && list == old(list) && verdict == old(verdict) && finalizer == old(finalizer)
      ensures Dooming(jobs, list, spared)
      ensures jobs.Keys == old(jobs).Keys && forall j :: j in jobs && j != k ==> jobs[j] == old(jobs)[j]
      ensures Less(jobs, old(jobs), list)
      decreases 0, 7
    {
      if jobs[k].deferred {
        FinishStep(jobs, list, spared, k, Updated(jobs[k]));
        ExitNested(k);
      } else {
        var r: int := *;
        var s := CoroutineEnds(k, r);
        FinishStep(old(jobs), list, spared, k, old(jobs)[k].(status := s, ret := r, deferred := true));
      }
      FewerLeft(old(jobs), jobs, list, k);
    }

    /** The end of job_co_entry: a paused coroutine has resumed, it may have become ready, and the
        driver's run callback has returned. */
    method CoroutineEnds(k: int, r: int) returns (s: Status)
      requires k in jobs && AtWork(jobs[k]) && !jobs[k].deferred
      modifies this`jobs
      ensures s.Running? || s.Ready?
      ensures old(jobs)[k].status.Ready? || old(jobs)[k].status.Standby? ==> s.Ready?
      ensures jobs == old(jobs)[k := old(jobs)[k].(status := s, ret := r, deferred := true)]
    {
      if jobs[k].status.Paused? {
        Transition(k, Running);
      } else if jobs[k].status.Standby? {
        Transition(k, Ready);
      }
      var ready: bool := *;
      if ready && jobs[k].status.Running? {
        Transition(k, Ready);
      }
      s := jobs[k].status;
      jobs := jobs[k := jobs[k].(ret := r, deferred := true)];
      assert jobs == old(jobs)[k := old(jobs)[k].(status := s, ret := r, deferred := true)];
    }

    /** job_exit and job_completed_locked. */
    method Exit(k: int)
      requires k in list && k in jobs && jobs[k].deferred && AtWork(jobs[k])
      requires if aborting then jobs[k].force else Inv()
      modifies this
      ensures old(aborting) ==>
                && aborting && list == old(list) && jobs == old(jobs)[k := Updated(old(jobs)[k])]
                && verdict == old(verdict) && finalizer == old(finalizer)
      ensures !old(aborting) ==> Inv()
      ensures !old(aborting) && Updated(old(jobs)[k]).ret != 0 ==> verdict == AllAborted && finalizer == None
      ensures !old(aborting) && Updated(old(jobs)[k]).ret == 0 ==>
                SuccessOutcome(old(jobs), jobs, k, verdict, FinalVerdict(prepare, order, k))
      ensures !old(aborting) && Updated(old(jobs)[k]).ret == 0 ==>
                finalizer == if SomeoneElse(old(jobs), k) || SomeManual(old(jobs)) then None else Some(k)
      decreases if aborting then 0 else 1, 5
    {
      UpdateRc(k);
      if jobs[k].ret != 0 {
        ghost var v := if aborting then verdict else AllAborted;
        TxnAbort(k, {});
        verdict := v;
      } else {
        assert jobs == old(jobs);
        TxnSuccess(k);
      }
    }

    /** job_exit while the group is being aborted. */
    method ExitNested(k: int)
      requires aborting && k in list && k in jobs && jobs[k].deferred && AtWork(jobs[k]) && jobs[k].force
      modifies this
      ensures aborting && list == old(list) && verdict == old(verdict) && finalizer == old(finalizer)
      ensures jobs == old(jobs)[k := Updated(old(jobs)[k])]
      decreases 0, 6
    {
      Exit(k);
    }

    /** job_completed_txn_success_locked */
    method TxnSuccess(job: int)
      requires !aborting && Inv() && verdict == Open && job in list && AtWork(jobs[job]) && jobs[job].deferred
      requires jobs[job].ret == 0 && !jobs[job].force
      modifies this
      ensures Inv() && SuccessOutcome(old(jobs), jobs, job, verdict, FinalVerdict(prepare, order, job))
      ensures finalizer == if SomeoneElse(old(jobs), job) || SomeManual(old(jobs)) then None else Some(job)
      decreases if aborting then 0 else 1, 4
    {
      var all := MarkWaiting(job);
      WaitingIsAlike(old(jobs), job);
      if all {
        MakePending(job);
      }
    }

    /** The job waits; whether nobody else is at work. */
    method MarkWaiting(job: int) returns (all: bool)
      requires !aborting && Inv() && verdict == Open && job in list && AtWork(jobs[job]) && jobs[job].deferred
      requires jobs[job].ret == 0 && !jobs[job].force
      modifies this`jobs
      ensures Inv() && jobs == old(jobs)[job := old(jobs)[job].(status := Waiting)]
      ensures all <==> !SomeoneElse(old(jobs), job)
      ensures all ==> forall j :: j in jobs ==> jobs[j].status.Waiting?
    {
      Transition(job, Waiting);
      all := AllDone();
    }

    /** All jobs have succeeded. */
    method MakePending(job: int)
      requires !aborting && Inv() && verdict == Open && job in list && forall j :: j in jobs ==> jobs[j].status.Waiting?
      modifies this
      ensures Inv()
      ensures if SomeManual(old(jobs)) then verdict == Open && AllPending(old(jobs), jobs)
              else verdict == FinalVerdict(prepare, order, job) && finalizer == Some(job)
      decreases if aborting then 0 else 1, 3
    {
      AllToPending();
      var manual := AnyManual();
      if !manual {
        DoFinalize(job);
      }
    }

    /** Whether all jobs of the group have completed. */
    method AllDone() returns (all: bool)
      requires ListOk() && forall j :: j in list && Completed(jobs[j].status) ==> jobs[j].ret == 0
      ensures all <==> forall j :: j in list ==> Completed(jobs[j].status)
    {
      for i := 0 to |list|
        invariant forall k :: 0 <= k < i ==> list[k] in jobs && Completed(jobs[list[k]].status)
      {
        assert list[i] in list;
        if !Completed(jobs[list[i]].status) {
          return false;
        }
        assert jobs[list[i]].ret == 0;
      }
      return true;
    }

    /** job_transition_to_pending_locked applied to the group. */
    method AllToPending()
      requires ListOk() && forall j :: j in list ==> jobs[j].status.Waiting?
      modifies this`jobs
      ensures jobs.Keys == old(jobs).Keys
      ensures forall j :: j in list ==> jobs[j] == old(jobs)[j].(status := Pending)
      ensures forall j :: j in jobs && j !in list ==> jobs[j] == old(jobs)[j]
    {
      for i := 0 to |list|
        invariant jobs.Keys == old(jobs).Keys
        invariant forall j :: j in jobs && j !in list ==> jobs[j] == old(jobs)[j]
        invariant forall k :: 0 <= k < |list| ==> list[k] in old(jobs)
        invariant forall k :: 0 <= k < i ==> jobs[list[k]] == old(jobs)[list[k]].(status := Pending)
        invariant forall k :: i <= k < |list| ==> jobs[list[k]] == old(jobs)[list[k]]
      {
        Transition(list[i], Pending);
      }
    }

    /** job_needs_finalize_locked applied to the group. */
    method AnyManual() returns (manual: bool)
      requires ListOk()
      ensures manual <==> exists j :: j in list && !jobs[j].autoFinalize
    {
      for i := 0 to |list|
        invariant forall k :: 0 <= k < i ==> jobs[list[k]].autoFinalize
      {
        if !jobs[list[i]].autoFinalize {
          assert list[i] in list;
          return true;
        }
      }
      return false;
    }

    /** job_do_finalize_locked.  A failing prepare callback of the initiating job aborts all; one of
        another job aborts all but the initiating job. */
    method DoFinalize(job: int)
      requires !aborting && Inv() && verdict == Open && job in list && forall j :: j in list ==> jobs[j].status.Pending?
      modifies this
      ensures Inv() && finalizer == Some(job) && verdict == FinalVerdict(prepare, order, job)
      decreases if aborting then 0 else 1, 2
    {
      assert forall j :: j in jobs ==> j in list && Spared(jobs[j]);
      PrepareAndFinish(job);
      finalizer := Some(job);
      verdict := FinalVerdict(prepare, order, job);
    }

    method PrepareAndFinish(job: int)
      requires !aborting && ListOk() && job in list && forall j :: j in jobs ==> j in list && Spared(jobs[j])
      modifies this
      ensures list == [] && jobs.Keys == old(jobs).Keys && Tells(FinalVerdict(prepare, old(list), job), jobs)
      decreases if aborting then 0 else 1, 1, 2
    {
      var ok, k := PrepareAll();
      if !ok {
        AbortPrepared(job, k);
      } else {
        FinalizeAll();
      }
    }

    /** The group is aborted because the prepare callback of `k` failed. */
    method AbortPrepared(job: int, k: int)
      requires !aborting && ListOk() && job in list && k in list && (forall j :: j in jobs ==> j in list)
      requires Failed(jobs[k]) && Abortable(jobs[k]) && forall j :: j in list && j != k ==> Spared(jobs[j])
      modifies this
      ensures list == [] && jobs.Keys == old(jobs).Keys
      ensures Tells(if k == job then AllAborted else SiblingFailed(job, k), jobs)
      decreases if aborting then 0 else 1, 1, 1
    {
      TxnAbort(job, if k == job then {} else {job});
    }

    /** job_prepare_locked applied to the group: succeeds exactly when all callbacks do, and stops at
        the first one that fails. */
    method PrepareAll() returns (ok: bool, culprit: int)
      requires ListOk() && forall j :: j in list ==> Spared(jobs[j])
      modifies this`jobs
      ensures jobs.Keys == old(jobs).Keys && forall j :: j in jobs && j !in list ==> jobs[j] == old(jobs)[j]
      ensures ok <==> forall j :: j in list ==> prepare(j) == 0
      ensures FirstFailing(prepare, list) == if ok then None else Some(culprit)
      ensures ok ==> forall j :: j in list ==> Spared(jobs[j])
      ensures !ok ==> culprit in list && Failed(jobs[culprit]) && Abortable(jobs[culprit])
      ensures !ok ==> forall j :: j in list && j != culprit ==> Spared(jobs[j])
    {
      for i := 0 to |list|
        invariant jobs.Keys == old(jobs).Keys && forall j :: j in jobs && j !in list ==> jobs[j] == old(jobs)[j]
        invariant forall j :: j in list ==> Spared(jobs[j])
        invariant forall k :: 0 <= k < i ==> prepare(list[k]) == 0
      {
        assert list[i] in list;
        ok := Prepare(list[i]);
        if !ok {
          FailingAt(prepare, list, i);
          return false, list[i];
        }
      }
      NoneFailing(prepare, list);
      return true, 0;
    }

    /** job_prepare_locked */
    method Prepare(k: int) returns (ok: bool)
      requires k in jobs && Spared(jobs[k])
      modifies this`jobs
      ensures jobs.Keys == old(jobs).Keys && forall j :: j in jobs && j != k ==> jobs[j] == old(jobs)[j]
      ensures ok <==> prepare(k) == 0
      ensures if ok then jobs[k] == old(jobs)[k] else Failed(jobs[k]) && Abortable(jobs[k]) && jobs[k].ret == prepare(k)
    {
      jobs := jobs[k := jobs[k].(ret := prepare(k))];
      UpdateRc(k);
      ok := jobs[k].ret == 0;
    }

    /** job_finalize_single_locked applied to the group. */
    method FinalizeAll()
      requires ListOk() && forall j :: j in list ==> Spared(jobs[j])
      modifies this`jobs, this`list
      ensures list == [] && AbortResult(old(jobs), jobs, old(list), set j | j in old(list))
      ensures (forall j :: j in old(jobs) ==> j in old(list)) ==> Tells(AllCommitted, jobs)
    {
      ghost var all := set j | j in list;
      assert list == list[0..];
      while list != []
        invariant AbortHalf(old(jobs), jobs, old(list), list, all)
        decreases |list|
      {
        assert list[0] in list && list[0] in old(list);
        FinalizeFirst(old(jobs), old(list), all);
      }
      AbortDone(old(jobs), jobs, old(list), all);
    }

    // -------------------------------------------------------------- calls from outside

    /** The coroutine of a job returns `r`. */
    method Return(j: int, r: int) returns (s: Status)
      requires Inv() && j in jobs && AtWork(jobs[j]) && !jobs[j].deferred
      modifies this`jobs
      ensures Inv() && AtWork(jobs[j]) && jobs == old(jobs)[j := old(jobs)[j].(status := s, ret := r, deferred := true)]
    {
      s := CoroutineEnds(j, r);
    }

    /** The coroutine of a job pauses, resumes or gets ready. */
    method ChangeStatus(j: int, s: Status)
      requires Inv() && j in jobs && !jobs[j].deferred && AtWork(jobs[j]) && RunningKind(s)
      requires Allowed(jobs[j].status, s)
      modifies this`jobs
      ensures Inv() && jobs == old(jobs)[j := old(jobs)[j].(status := s)]
    {
      Transition(j, s);
    }

    /** job_cancel_locked: forcing a job that has not been finalised makes it abort, and with it,
        if its coroutine is done, the whole group at once. */
    method Cancel(j: int, force: bool)
      requires Inv() && j in jobs && !jobs[j].status.Null?
      modifies this
      ensures Inv()
      ensures force && old(verdict) == Open ==> verdict == AllAborted || (j in jobs && jobs[j].force)
      ensures force && old(verdict) == Open && old(jobs)[j].deferred ==> verdict == AllAborted
      ensures old(verdict) == Open && !old(jobs)[j].deferred ==> verdict == Open && j in jobs && jobs[j].cancelled
      ensures verdict == Open ==>
                jobs.Keys == old(jobs).Keys && forall i :: i in jobs && i != j ==> jobs[i] == old(jobs)[i]
      ensures old(verdict) != Open ==> verdict == old(verdict) && finalizer == old(finalizer)
      ensures finalizer == old(finalizer)
    {
      if jobs[j].status.Concluded? {
        Transition(j, Null);
      } else {
        CancelActive(j, force);
      }
    }

    method CancelActive(j: int, force: bool)
      requires Inv() && j in jobs && !jobs[j].status.Null? && !jobs[j].status.Concluded?
      modifies this
      ensures Inv()
      ensures force && old(verdict) == Open ==> verdict == AllAborted || (j in jobs && jobs[j].force)
      ensures force && old(verdict) == Open && old(jobs)[j].deferred ==> verdict == AllAborted
      ensures old(verdict) == Open && !old(jobs)[j].deferred ==> verdict == Open && j in jobs && jobs[j].cancelled
      ensures verdict == Open ==>
                jobs.Keys == old(jobs).Keys && forall i :: i in jobs && i != j ==> jobs[i] == old(jobs)[i]
      ensures old(verdict) != Open ==> verdict == old(verdict) && finalizer == old(finalizer)
      ensures finalizer == old(finalizer)
    {
      CancelAsync(j, force);
      if jobs[j].deferred {
        if jobs[j].force {
          TxnAbort(j, {});
          verdict := AllAborted;
        }
      }
    }

    /** job_finalize_locked */
    method Finalize(j: int) returns (ok: bool)
      requires Inv() && j in jobs
      modifies this
      ensures Inv() && (ok <==> VerbAllowed(JobStatus.Finalize, old(jobs)[j].status))
      ensures ok ==> old(verdict) == Open && finalizer == Some(j) && verdict == FinalVerdict(prepare, order, j)
      ensures !ok ==> jobs == old(jobs) && list == old(list) && verdict == old(verdict) && finalizer == old(finalizer)
    {
      if !VerbAllowed(JobStatus.Finalize, jobs[j].status) {
        return false;
      }
      DoFinalize(j);
      return true;
    }

    /** job_dismiss_locked */
    method Dismiss(j: int) returns (ok: bool)
      requires Inv() && j in jobs
      modifies this`jobs
      ensures Inv() && (ok <==> VerbAllowed(JobStatus.Dismiss, old(jobs)[j].status))
      ensures jobs == if ok then old(jobs)[j := old(jobs)[j].(status := Null)] else old(jobs)
    {
      if !VerbAllowed(JobStatus.Dismiss, jobs[j].status) {
        return false;
      }
      Transition(j, Null);
      return true;
    }

    // -------------------------------------------------------------- whole runs

    /** The event can happen: a coroutine only acts while it is at work, job_exit runs once after it,
        and nobody refers to a job that is gone. */
    predicate Possible(ev: Event)
      reads this
    {
      && ev.j in jobs
      && match ev
         case ReturnEvent(j, _) => AtWork(jobs[j]) && !jobs[j].deferred
         case ExitEvent(j) => AtWork(jobs[j]) && jobs[j].deferred
         case StatusEvent(j, s) => AtWork(jobs[j]) && !jobs[j].deferred && RunningKind(s) && Allowed(jobs[j].status, s)
         case _ => !jobs[ev.j].status.Null?
    }

    /** The event makes its job finalise the group: it is asked to, or its success is the last one
        missing and nobody asked for manual finalisation. */
    ghost predicate Finalizes(ev: Event)
      requires ev.j in jobs
      reads this
    {
      match ev
      case FinalizeEvent(j) => jobs[j].status.Pending?
      case ExitEvent(j) => Updated(jobs[j]).ret == 0 && !SomeoneElse(jobs, j) && !SomeManual(jobs)
      case _ => false
    }

    method Happen(ev: Event)
      requires Inv() && Possible(ev)
      modifies this
      ensures Inv() && (old(verdict) != Open ==> verdict == old(verdict) && finalizer == old(finalizer))
      ensures old(verdict) == Open ==> finalizer == if old(Finalizes(ev)) then Some(ev.j) else None
    {
      match ev
      case ReturnEvent(j, r) => var s := Return(j, r);
      case ExitEvent(j) => Exit(j);
      case StatusEvent(j, s) => ChangeStatus(j, s);
      case CancelEvent(j, force) => Cancel(j, force);
      case FinalizeEvent(j) => var ok := Finalize(j);
      case DismissEvent(j) => var ok := Dismiss(j);
    }

    /** Any run of the group.  A decided group is uniform exactly unless some job finalised it whose
        prepare callback is not the first to fail; in particular it is if no callback fails. */
    method Run(events: seq<Event>)
      requires Inv()
      modifies this
      ensures Inv() && Tells(verdict, jobs)
      ensures (old(verdict) != Open ==> verdict == old(verdict) && finalizer == old(finalizer))
      ensures verdict != Open ==>
                (Uniform(jobs) <==>
                   finalizer == None || FirstFailing(prepare, order) == None
                   || FirstFailing(prepare, order) == finalizer)
      ensures verdict != Open && (forall j :: j in jobs ==> prepare(j) == 0) ==> Uniform(jobs)
      ensures old(verdict) == Open && finalizer.Some? ==>
                exists i :: 0 <= i < |events| && (events[i].FinalizeEvent? || events[i].ExitEvent?)
                            && finalizer == Some(events[i].j)
    {
      for i := 0 to |events|
        invariant Inv() && (old(verdict) != Open ==> verdict == old(verdict) && finalizer == old(finalizer))
        invariant old(verdict) == Open && finalizer.Some? ==>
                    exists k :: 0 <= k < i && (events[k].FinalizeEvent? || events[k].ExitEvent?)
                                && finalizer == Some(events[k].j)
      {
        if Possible(events[i]) {
          Happen(events[i]);
        }
      }
      if verdict != Open { UniformExactlyWhen(prepare, order, finalizer, jobs); }
    }
  }

  const FRESH := Member(Running, 0, false, false, false, true, true, [])

  /** A group of two jobs, the first of which has succeeded. */
  method HalfDone(prepare: int -> int) returns (txn: JobTxn)
    ensures fresh(txn) && txn.Inv() && txn.verdict == Open && txn.order == [1, 2] && txn.prepare == prepare
    ensures txn.jobs.Keys == {1, 2} && txn.jobs[1].status.Waiting? && txn.jobs[2] == FRESH && txn.jobs[1].autoFinalize
  {
    txn := new JobTxn(map[1 := FRESH, 2 := FRESH], [1, 2], prepare);
    var s := txn.Return(1, 0);
    assert SomeoneElse(txn.jobs, 1) by { assert 2 in txn.jobs; }
    txn.Exit(1);
  }

  /** A run that ends mixed: both jobs succeed, the second one last, and the first one's prepare
      callback fails. */
  method MixedRun() returns (txn: JobTxn)
    ensures txn.Inv() && txn.verdict == SiblingFailed(2, 1) && !Uniform(txn.jobs)
  {
    txn := HalfDone(j => if j == 1 then -5 else 0);
    var s := txn.Return(2, 0);
    txn.Exit(2);
    assert FirstFailing(txn.prepare, txn.order) == Some(1);
    UniformExactlyWhen(txn.prepare, txn.order, txn.finalizer, txn.jobs);
  }
}
