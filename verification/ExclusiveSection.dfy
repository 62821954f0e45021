/** The exclusive-section protocol of cpu-common.c as an interleaving transition system.

    Every CPU thread has a program counter; one atomic access to `pending_cpus` or to some
    CPU's `running` flag, one lock operation or one condition-variable operation is one step.
    Memory is sequentially consistent, which is what the two `smp_mb()` calls provide. */
module ExclusiveSection {
  import opened Basics

  /** Where a CPU thread is: `Start*` is inside cpu_exec_start, `End*` inside cpu_exec_end,
      `Excl*` inside start_exclusive, `Release*` inside end_exclusive.  A sleeping thread is
      `woken` once its condition variable was signalled and it only waits for the lock. */
  datatype Pc =
    | Idle
    | StartLoad | StartLock | StartCheck | StartStopped | StartSleep(woken: bool)
    | StartResume | StartUnlock
    | Running
    | EndLoad | EndLock | EndCheck | EndSignal | EndUnlock
    | ExclLock | ExclIdle | ExclIdleSleep(woken: bool) | ExclAnnounce
    | ExclScan(next: nat, seen: nat) | ExclPublish(seen: nat)
    | ExclWait | ExclSleep(woken: bool) | ExclUnlock | ExclEnter
    | ReleaseLock | ReleaseReset | ReleaseBroadcast | ReleaseUnlock
    | AtomicStep

  /** `depth` is exclusive_context_count. */
  datatype Cpu = Cpu(pc: Pc, running: bool, hasWaiter: bool, depth: nat)

  datatype Owner = Free | HeldBy(cpu: nat)

  /** The variables all threads share: pending_cpus and qemu_cpu_list_lock. */
  datatype Mem = Mem(pending: int, lock: Owner)

  datatype State = State(mem: Mem, cpus: seq<Cpu>)

  // ---------------------------------------------------------------- steps

  predicate Acquire(m: Mem, i: nat, m': Mem) {
    m.lock == Free && m' == m.(lock := HeldBy(i))
  }

  function Drop(m: Mem): Mem { m.(lock := Free) }

  /** Outside cpu_exec: cpu_exec_start, start_exclusive or end_exclusive is called, possibly
      nested, or cpu_exec_step_atomic runs the CPU inside its own exclusive section. */
  predicate IdleStep(m: Mem, c: Cpu, m': Mem, c': Cpu) {
    && c.pc.Idle? && m' == m
    && if c.depth == 0 then
         || c' == c.(running := true, pc := StartLoad)
         || c' == c.(pc := ExclLock)
       else
         || c' == c.(depth := c.depth + 1)
         || c' == c.(depth := c.depth - 1, pc := if c.depth == 1 then ReleaseLock else Idle)
         || c' == c.(running := true, pc := AtomicStep)
  }

  predicate StartStep(m: Mem, i: nat, c: Cpu, m': Mem, c': Cpu) {
    match c.pc
    case StartLoad => m' == m && c' == c.(pc := if m.pending == 0 then Running else StartLock)
    case StartLock => Acquire(m, i, m') && c' == c.(pc := StartCheck)
    case StartCheck =>
      m' == m && c' == if c.hasWaiter then c.(pc := StartUnlock) else c.(running := false, pc := StartStopped)
    case StartStopped =>
      if m.pending != 0 then m' == Drop(m) && c' == c.(pc := StartSleep(false))
      else m' == m && c' == c.(pc := StartResume)
    case StartSleep(woken) =>
      if woken then Acquire(m, i, m') && c' == c.(pc := StartStopped)
      else m' == m && c' == c.(pc := StartSleep(true))
    case StartResume => m' == m && c' == c.(running := true, pc := StartUnlock)
    case StartUnlock => m' == Drop(m) && c' == c.(pc := Running)
    case _ => false
  }

  predicate EndStep(m: Mem, i: nat, c: Cpu, m': Mem, c': Cpu) {
    match c.pc
    case Running => m' == m && c' == c.(running := false, pc := EndLoad)
    case EndLoad => m' == m && c' == c.(pc := if m.pending == 0 then Idle else EndLock)
    case EndLock => Acquire(m, i, m') && c' == c.(pc := EndCheck)
    case EndCheck =>
      if c.hasWaiter then m' == m.(pending := m.pending - 1) && c' == c.(hasWaiter := false, pc := EndSignal)
      else m' == m && c' == c.(pc := EndUnlock)
    case EndSignal => m.pending != 1 && m' == m && c' == c.(pc := EndUnlock)
    case EndUnlock => m' == Drop(m) && c' == c.(pc := Idle)
    case _ => false
  }

  /** start_exclusive up to announcing the section: lock, exclusive_idle, pending_cpus = 1. */
  predicate QueueStep(m: Mem, i: nat, c: Cpu, m': Mem, c': Cpu) {
    match c.pc
    case ExclLock => Acquire(m, i, m') && c' == c.(pc := ExclIdle)
    case ExclIdle =>
      if m.pending != 0 then m' == Drop(m) && c' == c.(pc := ExclIdleSleep(false))
      else m' == m && c' == c.(pc := ExclAnnounce)
    case ExclIdleSleep(woken) =>
      if woken then Acquire(m, i, m') && c' == c.(pc := ExclIdle)
      else m' == m && c' == c.(pc := ExclIdleSleep(true))
    case ExclAnnounce => m' == m.(pending := 1) && c' == c.(pc := ExclScan(0, 0))
    case _ => false
  }

  /** start_exclusive once all `n` CPUs have been looked at. */
  predicate AwaitStep(m: Mem, i: nat, c: Cpu, m': Mem, c': Cpu, n: nat) {
    match c.pc
    case ExclScan(k, seen) => k >= n && m' == m && c' == c.(pc := ExclPublish(seen))
    case ExclPublish(seen) => m' == m.(pending := seen + 1) && c' == c.(pc := ExclWait)
    case ExclWait =>
      if m.pending > 1 then m' == Drop(m) && c' == c.(pc := ExclSleep(false))
      else m' == m && c' == c.(pc := ExclUnlock)
    case ExclSleep(woken) =>
      if woken then Acquire(m, i, m') && c' == c.(pc := ExclWait)
      else m' == m && c' == c.(pc := ExclSleep(true))
    case ExclUnlock => m' == Drop(m) && c' == c.(pc := ExclEnter)
    case ExclEnter => m' == m && c' == c.(depth := 1, pc := Idle)
    case _ => false
  }

  predicate ReleaseStep(m: Mem, i: nat, c: Cpu, m': Mem, c': Cpu) {
    match c.pc
    case ReleaseLock => Acquire(m, i, m') && c' == c.(pc := ReleaseReset)
    case ReleaseReset => m' == m.(pending := 0) && c' == c.(pc := ReleaseBroadcast)
    case ReleaseUnlock => m' == Drop(m) && c' == c.(pc := Idle)
    case AtomicStep => m' == m && c' == c.(running := false, pc := Idle)
    case _ => false
  }

  /** A step in which thread `i` touches only the shared variables and its own CPU.  The
      un-woken sleep cases are spurious wake-ups. */
  predicate LocalStep(m: Mem, i: nat, c: Cpu, m': Mem, c': Cpu, n: nat) {
    || IdleStep(m, c, m', c')
    || StartStep(m, i, c, m', c')
    || EndStep(m, i, c, m', c')
    || QueueStep(m, i, c, m', c')
    || AwaitStep(m, i, c, m', c', n)
    || ReleaseStep(m, i, c, m', c')
  }

  /** One turn of CPU_FOREACH in start_exclusive: look at CPU `k`, mark it if it runs. */
  predicate ScanStep(s: State, i: nat, s': State)
    requires i < |s.cpus|
  {
    && s.cpus[i].pc.ExclScan?
    && var ExclScan(k, seen) := s.cpus[i].pc;
    && k < |s.cpus|
    && s' == if s.cpus[k].running
             then s.(cpus := s.cpus[k := s.cpus[k].(hasWaiter := true)]
                                   [i := s.cpus[i].(pc := ExclScan(k + 1, seen + 1))])
             else s.(cpus := s.cpus[i := s.cpus[i].(pc := ExclScan(k + 1, seen))])
  }

  /** qemu_cond_signal(&exclusive_cond): one sleeper, if there is one, becomes runnable. */
  ghost predicate SignalStep(s: State, i: nat, s': State)
    requires i < |s.cpus|
  {
    && s.cpus[i].pc.EndSignal? && s.mem.pending == 1 && s'.mem == s.mem
    && var cpus := s.cpus[i := s.cpus[i].(pc := EndUnlock)];
    if exists j :: 0 <= j < |cpus| && cpus[j].pc == ExclSleep(false) then
      exists j :: 0 <= j < |cpus| && cpus[j].pc == ExclSleep(false)
                  && s'.cpus == cpus[j := cpus[j].(pc := ExclSleep(true))]
    else
      s'.cpus == cpus
  }

  /** qemu_cond_broadcast(&exclusive_resume) */
  function WakeResume(c: Cpu): Cpu {
    match c.pc
    case StartSleep(_) => c.(pc := StartSleep(true))
    case ExclIdleSleep(_) => c.(pc := ExclIdleSleep(true))
    case _ => c
  }

  ghost predicate BroadcastStep(s: State, i: nat, s': State)
    requires i < |s.cpus|
  {
    && s.cpus[i].pc.ReleaseBroadcast? && s'.mem == s.mem && |s'.cpus| == |s.cpus|
    && forall k :: 0 <= k < |s.cpus| ==>
         s'.cpus[k] == if k == i then s.cpus[i].(pc := ReleaseUnlock) else WakeResume(s.cpus[k])
  }

  /** Thread `i` takes one step. */
  ghost predicate Step(s: State, i: nat, s': State) {
    && i < |s.cpus| == |s'.cpus|
    && (|| (s'.cpus == s.cpus[i := s'.cpus[i]] && LocalStep(s.mem, i, s.cpus[i], s'.mem, s'.cpus[i], |s.cpus|))
        || ScanStep(s, i, s')
        || SignalStep(s, i, s')
        || BroadcastStep(s, i, s'))
  }

  ghost predicate Init(s: State) {
    && s.mem == Mem(0, Free)
    && forall k :: 0 <= k < |s.cpus| ==> s.cpus[k] == Cpu(Idle, false, false, 0)
  }

  /** A run: a start state and any interleaving of the threads' steps. */
  ghost predicate Run(run: seq<State>, who: seq<nat>) {
    && |run| == |who| + 1
    && Init(run[0])
    && forall k :: 0 <= k < |who| ==> Step(run[k], who[k], run[k + 1])
  }

  // ---------------------------------------------------------------- what holds in every state

  predicate HoldsLock(pc: Pc) {
    || pc.StartCheck? || pc.StartStopped? || pc.StartResume? || pc.StartUnlock?
    || pc.EndCheck? || pc.EndSignal? || pc.EndUnlock?
    || pc.ExclIdle? || pc.ExclAnnounce? || pc.ExclScan? || pc.ExclPublish? || pc.ExclWait? || pc.ExclUnlock?
    || pc.ReleaseReset? || pc.ReleaseBroadcast? || pc.ReleaseUnlock?
  }

  /** `running` is a function of the program counter. */
  predicate RunsAt(pc: Pc) {
    pc.StartLoad? || pc.StartLock? || pc.StartCheck? || pc.StartUnlock? || pc.Running? || pc.AtomicStep?
  }

  /** The decrement in cpu_exec_end still lies ahead of this thread. */
  predicate OwesDecrement(pc: Pc) {
    || pc.StartLoad? || pc.StartLock? || pc.StartCheck? || pc.StartUnlock? || pc.Running?
    || pc.EndLoad? || pc.EndLock? || pc.EndCheck?
  }

  /** Between the end of start_exclusive's wait loop and the reset of pending_cpus. */
  predicate Granted(c: Cpu) {
    || (c.pc.Idle? && c.depth > 0)
    || c.pc.ExclUnlock? || c.pc.ExclEnter? || c.pc.AtomicStep? || c.pc.ReleaseLock? || c.pc.ReleaseReset?
  }

  /** How far a CPU is with its exclusive section: looking at the CPUs from `next` on, having
      found `seen` of them running; waiting for those; or alone. */
  datatype Phase = Nothing | Looking(next: nat, seen: nat) | Counted | Alone

  function PhaseOf(c: Cpu, n: nat): Phase {
    match c.pc
    case ExclScan(k, seen) => Looking(k, seen)
    case ExclPublish(seen) => Looking(n, seen)
    case ExclWait => Counted
    case ExclSleep(_) => Counted
    case _ => if Granted(c) then Alone else Nothing
  }

  /** The number of CPUs whose has_waiter flag is set. */
  function Waiters(cpus: seq<Cpu>): nat {
    if cpus == [] then 0
    else Waiters(cpus[..|cpus| - 1]) + if cpus[|cpus| - 1].hasWaiter then 1 else 0
  }

  /** What all `n` threads can rely on: the shared variables, the index `e` (-1 if there is none)
      and the phase of the CPU whose exclusive section is under way, and whether the lock holder
      is about to signal or to broadcast. */
  datatype View = View(n: nat, mem: Mem, e: int, phase: Phase, signalling: bool, broadcasting: bool)

  function ViewOf(s: State, e: int): View
    requires -1 <= e < |s.cpus|
  {
    var held := s.mem.lock.HeldBy? && s.mem.lock.cpu < |s.cpus|;
    View(|s.cpus|, s.mem, e,
         if e == -1 then Nothing else PhaseOf(s.cpus[e], |s.cpus|),
         held && s.cpus[s.mem.lock.cpu].pc.EndSignal?,
         held && s.cpus[s.mem.lock.cpu].pc.ReleaseBroadcast?)
  }

  /** All CPUs below this one have been looked at. */
  function Covered(v: View): int {
    match v.phase
    case Nothing => 0
    case Looking(next, _) => next
    case _ => v.n
  }

  predicate DepthOk(c: Cpu) {
    && (c.depth > 0 ==> c.pc.Idle? || c.pc.AtomicStep?)
    && (c.pc.AtomicStep? ==> c.depth > 0)
  }

  /** What holds of CPU `k` under the view `v`.  The third line from the end is the Dekker
      half: a CPU that runs uncounted after being scanned has yet to read pending_cpus, or
      will find has_waiter clear under the lock and stop. */
  predicate CpuOk(v: View, k: nat, c: Cpu) {
    && (v.mem.lock == HeldBy(k) <==> HoldsLock(c.pc))
    && (v.e == k <==> PhaseOf(c, v.n) != Nothing)
    && (c.running <==> RunsAt(c.pc))
    && DepthOk(c)
    && (c.pc.ExclAnnounce? || c.pc.StartResume? || c.pc.ReleaseBroadcast? || c.pc.ReleaseUnlock? ==> v.mem.pending == 0)
    && (c.pc.StartUnlock? && !c.hasWaiter ==> v.mem.pending == 0)
    && (c.pc.EndSignal? ==> v.mem.pending > 0)
    && (c.hasWaiter ==> OwesDecrement(c.pc) && k < Covered(v))
    && (k < Covered(v) && k != v.e && c.running && !c.hasWaiter ==>
          c.pc.StartLoad? || c.pc.StartLock? || c.pc.StartCheck?)
    && (c.pc == ExclSleep(false) ==> v.mem.pending > 1 || v.signalling)
    && (c.pc == StartSleep(false) || c.pc == ExclIdleSleep(false) ==> v.mem.pending > 0 || v.broadcasting)
  }

  ghost predicate CpusOk(v: View, cpus: seq<Cpu>) {
    forall k :: 0 <= k < |cpus| ==> CpuOk(v, k, cpus[k])
  }

  /** What pending_cpus is worth in each phase. */
  predicate CountOk(v: View, waiters: nat) {
    match v.phase
    case Nothing => v.mem.pending == 0 && waiters == 0
    case Looking(next, seen) => next <= v.n && v.mem.pending == 1 && seen == waiters
    case Counted => v.mem.pending == 1 + waiters
    case Alone => v.mem.pending == 1 && waiters == 0
  }

  ghost predicate InvAt(s: State, e: int) {
    && -1 <= e < |s.cpus|
    && (s.mem.lock.HeldBy? ==> s.mem.lock.cpu < |s.cpus|)
    && CountOk(ViewOf(s, e), Waiters(s.cpus))
    && CpusOk(ViewOf(s, e), s.cpus)
  }

  ghost predicate Inv(s: State) {
    exists e :: InvAt(s, e)
  }

  // ---------------------------------------------------------------- counting

  lemma {:induction false} WaitersUpdate(cpus: seq<Cpu>, i: nat, c: Cpu)
    requires i < |cpus|
    ensures Waiters(cpus[i := c]) + (if cpus[i].hasWaiter then 1 else 0)
         == Waiters(cpus) + (if c.hasWaiter then 1 else 0)
  {
    var n := |cpus| - 1;
    if i < n {
      assert cpus[i := c][..n] == cpus[..n][i := c];
      WaitersUpdate(cpus[..n], i, c);
    } else {
      assert cpus[i := c][..n] == cpus[..n];
    }
  }

  lemma {:induction false} WaitersSame(a: seq<Cpu>, b: seq<Cpu>)
    requires |a| == |b| && forall k :: 0 <= k < |a| ==> a[k].hasWaiter == b[k].hasWaiter
    ensures Waiters(a) == Waiters(b)
  {
    if |a| > 0 { WaitersSame(a[..|a| - 1], b[..|b| - 1]); }
  }

  lemma {:induction false} WaitersPositive(cpus: seq<Cpu>)
    ensures Waiters(cpus) > 0 <==> exists k :: 0 <= k < |cpus| && cpus[k].hasWaiter
  {
    if |cpus| > 0 {
      var rest := cpus[..|cpus| - 1];
      WaitersPositive(rest);
      if Waiters(rest) > 0 {
        var k :| 0 <= k < |rest| && rest[k].hasWaiter;
        assert cpus[k].hasWaiter;
      }
      if k :| 0 <= k < |cpus| && cpus[k].hasWaiter && k < |rest| {
        assert rest[k].hasWaiter;
      }
    }
  }

  // ---------------------------------------------------------------- one step keeps the invariant

  lemma InitInv(s: State)
    requires Init(s)
    ensures Inv(s)
  {
    WaitersPositive(s.cpus);
    assert InvAt(s, -1);
  }

  /** `v` is a view thread `i` can have while its CPU is `c`. */
  predicate Fits(v: View, i: nat, c: Cpu, waiters: nat) {
    && i < v.n && -1 <= v.e < v.n
    && (v.mem.lock.HeldBy? ==> v.mem.lock.cpu < v.n)
    && (v.e == i ==> v.phase == PhaseOf(c, v.n))
    && (v.e == -1 <==> v.phase == Nothing)
    && (v.phase.Looking? ==> v.mem.lock == HeldBy(v.e))
    && (v.mem.lock == HeldBy(i) ==> v.signalling == c.pc.EndSignal? && v.broadcasting == c.pc.ReleaseBroadcast?)
    && (v.mem.lock == Free ==> !v.signalling && !v.broadcasting)
    && (c.hasWaiter ==> waiters > 0)
    && CountOk(v, waiters)
    && CpuOk(v, i, c)
  }

  /** How the view changes when thread `i` moves to `c'` and the shared variables to `m'`. */
  function NextView(v: View, m': Mem, i: nat, c': Cpu): View {
    var phase := PhaseOf(c', v.n);
    View(v.n, m',
         if phase != Nothing then i else if v.e == i then -1 else v.e,
         if phase != Nothing || v.e == i then phase else v.phase,
         if m'.lock == HeldBy(i) then c'.pc.EndSignal? else v.signalling && m'.lock == v.mem.lock,
         if m'.lock == HeldBy(i) then c'.pc.ReleaseBroadcast? else v.broadcasting && m'.lock == v.mem.lock)
  }

  /** The view may change from `v` to `w` under the feet of every CPU but `i`. */
  predicate Harmless(v: View, w: View, i: nat, waiters: nat) {
    && (v.mem.lock == w.mem.lock
        || ((v.mem.lock == Free || v.mem.lock == HeldBy(i)) && (w.mem.lock == Free || w.mem.lock == HeldBy(i))))
    && (v.e == w.e || ((v.e == -1 || v.e == i) && (w.e == -1 || w.e == i)))
    && (v.mem.pending == w.mem.pending || v.mem.lock == HeldBy(i))
    && (Covered(v) == Covered(w) || (waiters == 0 && Covered(w) == 0))
    && (v.mem.pending > 1 || v.signalling ==> w.mem.pending > 1 || w.signalling)
    && (v.mem.pending > 0 || v.broadcasting ==> w.mem.pending > 0 || w.broadcasting)
  }

  lemma HarmlessKeeps(v: View, w: View, i: nat, k: nat, c: Cpu, waiters: nat)
    requires Harmless(v, w, i, waiters) && k != i && CpuOk(v, k, c)
    requires c.hasWaiter ==> waiters > 0
    ensures CpuOk(w, k, c)
  {
  }

  /** What thread `i` has to show for its own step. */
  predicate Goal(v: View, i: nat, c: Cpu, m': Mem, c': Cpu, waiters: nat) {
    var w := NextView(v, m', i, c');
    && waiters + Bit(c'.hasWaiter) >= Bit(c.hasWaiter)
    && (m'.lock.HeldBy? ==> m'.lock.cpu < v.n)
    && Harmless(v, w, i, waiters)
    && CountOk(w, waiters + Bit(c'.hasWaiter) - Bit(c.hasWaiter))
  }

  lemma IdleLocal(v: View, i: nat, c: Cpu, m': Mem, c': Cpu, waiters: nat)
    requires Fits(v, i, c, waiters) && IdleStep(v.mem, c, m', c')
    ensures Goal(v, i, c, m', c', waiters)
  {
  }

  lemma IdleCpu(v: View, i: nat, c: Cpu, m': Mem, c': Cpu, waiters: nat)
    requires Fits(v, i, c, waiters) && IdleStep(v.mem, c, m', c')
    ensures CpuOk(NextView(v, m', i, c'), i, c')
  {
  }

  lemma StartLocal(v: View, i: nat, c: Cpu, m': Mem, c': Cpu, waiters: nat)
    requires Fits(v, i, c, waiters) && StartStep(v.mem, i, c, m', c')
    ensures Goal(v, i, c, m', c', waiters)
  {
  }

  lemma StartCpu(v: View, i: nat, c: Cpu, m': Mem, c': Cpu, waiters: nat)
    requires Fits(v, i, c, waiters) && StartStep(v.mem, i, c, m', c')
    ensures CpuOk(NextView(v, m', i, c'), i, c')
  {
    if c.pc.StartStopped? || c.pc.StartSleep? || c.pc.StartResume? {
      StartWaitCpu(v, i, c, m', c', waiters);
    } else {
      StartOtherCpu(v, i, c, m', c', waiters);
    }
  }

  lemma StartWaitCpu(v: View, i: nat, c: Cpu, m': Mem, c': Cpu, waiters: nat)
    requires Fits(v, i, c, waiters) && StartStep(v.mem, i, c, m', c')
    requires c.pc.StartStopped? || c.pc.StartSleep? || c.pc.StartResume?
    ensures CpuOk(NextView(v, m', i, c'), i, c')
  {
  }

  lemma StartOtherCpu(v: View, i: nat, c: Cpu, m': Mem, c': Cpu, waiters: nat)
    requires Fits(v, i, c, waiters) && StartStep(v.mem, i, c, m', c')
    requires !(c.pc.StartStopped? || c.pc.StartSleep? || c.pc.StartResume?)
    ensures CpuOk(NextView(v, m', i, c'), i, c')
  {
  }

  lemma EndLocal(v: View, i: nat, c: Cpu, m': Mem, c': Cpu, waiters: nat)
    requires Fits(v, i, c, waiters) && EndStep(v.mem, i, c, m', c')
    ensures Goal(v, i, c, m', c', waiters)
  {
  }

  lemma EndCpu(v: View, i: nat, c: Cpu, m': Mem, c': Cpu, waiters: nat)
    requires Fits(v, i, c, waiters) && EndStep(v.mem, i, c, m', c')
    ensures CpuOk(NextView(v, m', i, c'), i, c')
  {
  }

  lemma QueueLocal(v: View, i: nat, c: Cpu, m': Mem, c': Cpu, waiters: nat)
    requires Fits(v, i, c, waiters) && QueueStep(v.mem, i, c, m', c')
    ensures Goal(v, i, c, m', c', waiters)
  {
  }

  lemma QueueCpu(v: View, i: nat, c: Cpu, m': Mem, c': Cpu, waiters: nat)
    requires Fits(v, i, c, waiters) && QueueStep(v.mem, i, c, m', c')
    ensures CpuOk(NextView(v, m', i, c'), i, c')
  {
  }

  lemma AwaitLocal(v: View, i: nat, c: Cpu, m': Mem, c': Cpu, waiters: nat)
    requires Fits(v, i, c, waiters) && AwaitStep(v.mem, i, c, m', c', v.n)
    ensures Goal(v, i, c, m', c', waiters)
  {
  }

  lemma AwaitCpu(v: View, i: nat, c: Cpu, m': Mem, c': Cpu, waiters: nat)
    requires Fits(v, i, c, waiters) && AwaitStep(v.mem, i, c, m', c', v.n)
    ensures CpuOk(NextView(v, m', i, c'), i, c')
  {
  }

  lemma ReleaseLocal(v: View, i: nat, c: Cpu, m': Mem, c': Cpu, waiters: nat)
    requires Fits(v, i, c, waiters) && ReleaseStep(v.mem, i, c, m', c')
    ensures Goal(v, i, c, m', c', waiters)
  {
  }

  lemma ReleaseCpu(v: View, i: nat, c: Cpu, m': Mem, c': Cpu, waiters: nat)
    requires Fits(v, i, c, waiters) && ReleaseStep(v.mem, i, c, m', c')
    ensures CpuOk(NextView(v, m', i, c'), i, c')
  {
  }

  lemma InvFits(s: State, e: int, i: nat)
    requires InvAt(s, e) && i < |s.cpus|
    ensures Fits(ViewOf(s, e), i, s.cpus[i], Waiters(s.cpus))
  {
    var v := ViewOf(s, e);
    assert CpuOk(v, i, s.cpus[i]);
    assert e != -1 ==> CpuOk(v, e, s.cpus[e]);
    WaitersPositive(s.cpus);
  }

  lemma LocalGoal(v: View, i: nat, c: Cpu, m': Mem, c': Cpu, waiters: nat)
    requires Fits(v, i, c, waiters) && LocalStep(v.mem, i, c, m', c', v.n)
    ensures Goal(v, i, c, m', c', waiters)
    ensures CpuOk(NextView(v, m', i, c'), i, c')
  {
    if IdleStep(v.mem, c, m', c') {
      IdleLocal(v, i, c, m', c', waiters); IdleCpu(v, i, c, m', c', waiters);
    } else if StartStep(v.mem, i, c, m', c') {
      StartLocal(v, i, c, m', c', waiters); StartCpu(v, i, c, m', c', waiters);
    } else if EndStep(v.mem, i, c, m', c') {
      EndLocal(v, i, c, m', c', waiters); EndCpu(v, i, c, m', c', waiters);
    } else if QueueStep(v.mem, i, c, m', c') {
      QueueLocal(v, i, c, m', c', waiters); QueueCpu(v, i, c, m', c', waiters);
    } else if AwaitStep(v.mem, i, c, m', c', v.n) {
      AwaitLocal(v, i, c, m', c', waiters); AwaitCpu(v, i, c, m', c', waiters);
    } else {
      ReleaseLocal(v, i, c, m', c', waiters); ReleaseCpu(v, i, c, m', c', waiters);
    }
  }

  lemma NextViewIsView(s: State, e: int, i: nat, s': State)
    requires -1 <= e < |s.cpus| == |s'.cpus| && i < |s.cpus|
    requires Fits(ViewOf(s, e), i, s.cpus[i], Waiters(s.cpus))
    requires s'.cpus == s.cpus[i := s'.cpus[i]]
    requires Goal(ViewOf(s, e), i, s.cpus[i], s'.mem, s'.cpus[i], Waiters(s.cpus))
    ensures var w := NextView(ViewOf(s, e), s'.mem, i, s'.cpus[i]);
            -1 <= w.e < |s'.cpus| && w == ViewOf(s', w.e)
  {
  }

  lemma LocalKeeps(s: State, e: int, i: nat, s': State)
    requires InvAt(s, e) && i < |s.cpus| == |s'.cpus|
    requires s'.cpus == s.cpus[i := s'.cpus[i]] && LocalStep(s.mem, i, s.cpus[i], s'.mem, s'.cpus[i], |s.cpus|)
    ensures Inv(s')
  {
    var v, n := ViewOf(s, e), Waiters(s.cpus);
    var w := NextView(v, s'.mem, i, s'.cpus[i]);
    InvFits(s, e, i);
    LocalGoal(v, i, s.cpus[i], s'.mem, s'.cpus[i], n);
    NextViewIsView(s, e, i, s');
    WaitersUpdate(s.cpus, i, s'.cpus[i]);
    WaitersPositive(s.cpus);
    OthersKeep(s, v, w, i, n);
    assert CpusOk(w, s'.cpus);
    assert InvAt(s', w.e);
  }

  lemma OthersKeep(s: State, v: View, w: View, i: nat, n: nat)
    requires CpusOk(v, s.cpus) && Harmless(v, w, i, n) && n == Waiters(s.cpus)
    ensures forall k :: 0 <= k < |s.cpus| && k != i ==> CpuOk(w, k, s.cpus[k])
  {
    forall k | 0 <= k < |s.cpus| && k != i ensures CpuOk(w, k, s.cpus[k]) {
      WaitersPositive(s.cpus);
      HarmlessKeeps(v, w, i, k, s.cpus[k], n);
    }
  }

  /** The scan steps over CPU `k`; a running one is marked. */
  function ScanView(v: View, k: nat, seen: nat): View { v.(phase := Looking(k + 1, seen)) }

  lemma ScanOther(v: View, k: nat, seen: nat, j: nat, c: Cpu)
    requires CpuOk(v, j, c) && v.phase.Looking? && v.phase.next == k && v.mem.pending == 1 && j != v.e
    ensures CpuOk(ScanView(v, k, seen), j, if j == k && c.running then c.(hasWaiter := true) else c)
  {
  }

  lemma ScanSelf(v: View, k: nat, seen: nat, i: nat, c: Cpu)
    requires CpuOk(v, i, c) && c.pc.ExclScan? && c.pc.next == k < v.n
    ensures v.e == i && v.phase == PhaseOf(c, v.n) ==> CpuOk(ScanView(v, k, seen), i, c.(pc := ExclScan(k + 1, seen)))
    ensures !c.running && PhaseOf(c, v.n) == Looking(k, c.pc.seen)
    ensures PhaseOf(c.(pc := ExclScan(k + 1, seen)), v.n) == Looking(k + 1, seen)
    ensures v.e == i && v.mem.lock == HeldBy(i)
  {
  }

  lemma ScanKeeps(s: State, e: int, i: nat, s': State)
    requires InvAt(s, e) && i < |s.cpus| && ScanStep(s, i, s')
    ensures Inv(s')
  {
    var v := ViewOf(s, e);
    var ExclScan(k, seen) := s.cpus[i].pc;
    var seen' := if s.cpus[k].running then seen + 1 else seen;
    assert CpuOk(v, i, s.cpus[i]);
    ScanSelf(v, k, seen', i, s.cpus[i]);
    assert s'.cpus[i] == s.cpus[i].(pc := ExclScan(k + 1, seen'));
    assert ViewOf(s', i) == ScanView(v, k, seen');
    forall j | 0 <= j < |s.cpus| ensures CpuOk(ScanView(v, k, seen'), j, s'.cpus[j]) {
      assert CpuOk(v, j, s.cpus[j]);
      if j != i { ScanOther(v, k, seen', j, s.cpus[j]); }
    }
    assert CpuOk(v, k, s.cpus[k]);
    ScanCount(s, i, s');
    assert InvAt(s', i);
  }

  lemma ScanCount(s: State, i: nat, s': State)
    requires i < |s.cpus| && ScanStep(s, i, s') && !s.cpus[i].running
    requires var k := s.cpus[i].pc.next; s.cpus[k].running ==> !s.cpus[k].hasWaiter
    ensures Waiters(s'.cpus) == Waiters(s.cpus) + (if s.cpus[s.cpus[i].pc.next].running then 1 else 0)
  {
    var k := s.cpus[i].pc.next;
    var mid := if s.cpus[k].running then s.cpus[k := s.cpus[k].(hasWaiter := true)] else s.cpus;
    if s.cpus[k].running { WaitersUpdate(s.cpus, k, mid[k]); }
    WaitersUpdate(mid, i, s'.cpus[i]);
  }

  /** Leaving EndSignal is harmless when nobody sleeps un-woken on exclusive_cond. */
  lemma QuietKeeps(s: State, e: int, i: nat, s': State)
    requires InvAt(s, e) && i < |s.cpus| && s.cpus[i].pc.EndSignal?
    requires s' == s.(cpus := s.cpus[i := s.cpus[i].(pc := EndUnlock)])
    requires forall k :: 0 <= k < |s.cpus| ==> s.cpus[k].pc != ExclSleep(false)
    ensures InvAt(s', e)
  {
    var v := ViewOf(s, e);
    assert CpuOk(v, i, s.cpus[i]);
    assert ViewOf(s', e) == v.(signalling := false);
    WaitersUpdate(s.cpus, i, s'.cpus[i]);
    forall j | 0 <= j < |s.cpus| ensures CpuOk(v.(signalling := false), j, s'.cpus[j]) {
      assert CpuOk(v, j, s.cpus[j]);
    }
  }

  lemma SignalKeeps(s: State, e: int, i: nat, s': State)
    requires InvAt(s, e) && i < |s.cpus| && SignalStep(s, i, s')
    ensures Inv(s')
  {
    if j :| 0 <= j < |s.cpus| && s.cpus[j].pc == ExclSleep(false) {
      assert s.cpus[i := s.cpus[i].(pc := EndUnlock)][j].pc == ExclSleep(false);
      OneSleeper(s, e, j);
      // the signal acts as if the sleeper had woken by itself before EndSignal was left
      var mid := s.(cpus := s.cpus[j := s.cpus[j].(pc := ExclSleep(true))]);
      LocalKeeps(s, e, j, mid);
      var e' :| InvAt(mid, e');
      assert s'.cpus == mid.cpus[i := mid.cpus[i].(pc := EndUnlock)];
      QuietKeeps(mid, e', i, s');
    } else {
      QuietKeeps(s, e, i, s');
    }
  }

  lemma OneSleeper(s: State, e: int, j: nat)
    requires InvAt(s, e) && j < |s.cpus| && s.cpus[j].pc == ExclSleep(false)
    ensures forall k :: 0 <= k < |s.cpus| && s.cpus[k].pc == ExclSleep(false) ==> k == j
  {
    assert CpuOk(ViewOf(s, e), j, s.cpus[j]);
    assert forall k :: 0 <= k < |s.cpus| && s.cpus[k].pc == ExclSleep(false) ==> CpuOk(ViewOf(s, e), k, s.cpus[k]);
  }

  lemma WokenCpu(v: View, k: nat, c: Cpu)
    requires CpuOk(v, k, c)
    ensures CpuOk(v.(broadcasting := false), k, WakeResume(c))
  {
  }

  lemma BroadcastKeeps(s: State, e: int, i: nat, s': State)
    requires InvAt(s, e) && i < |s.cpus| && BroadcastStep(s, i, s')
    ensures Inv(s')
  {
    var v := ViewOf(s, e);
    assert CpuOk(v, i, s.cpus[i]);
    WaitersSame(s.cpus, s'.cpus);
    forall j | 0 <= j < |s.cpus| ensures CpuOk(v.(broadcasting := false), j, s'.cpus[j]) {
      WokenCpu(v, j, s.cpus[j]);
    }
    assert ViewOf(s', e) == v.(broadcasting := false);
    assert InvAt(s', e);
  }

  lemma StepKeeps(s: State, i: nat, s': State)
    requires Inv(s) && Step(s, i, s')
    ensures Inv(s')
  {
    var e :| InvAt(s, e);
    if ScanStep(s, i, s') {
      ScanKeeps(s, e, i, s');
    } else if SignalStep(s, i, s') {
      SignalKeeps(s, e, i, s');
    } else if BroadcastStep(s, i, s') {
      BroadcastKeeps(s, e, i, s');
    } else {
      LocalKeeps(s, e, i, s');
    }
  }

  lemma {:induction false} EveryStateInv(run: seq<State>, who: seq<nat>, t: nat)
    requires Run(run, who) && t < |run|
    ensures Inv(run[t])
  {
    if t == 0 {
      InitInv(run[0]);
    } else {
      EveryStateInv(run, who, t - 1);
      StepKeeps(run[t - 1], who[t - 1], run[t]);
    }
  }

  // ---------------------------------------------------------------- the theorems

  /** From the end of start_exclusive's wait to the reset of pending_cpus no other CPU executes
      guest code and no other CPU is in an exclusive section, in every interleaving. */
  lemma MutualExclusion(run: seq<State>, who: seq<nat>, t: nat, i: nat, j: nat)
    requires Run(run, who) && t < |run| && i < |run[t].cpus| && j < |run[t].cpus| && i != j
    requires Granted(run[t].cpus[i])
    ensures run[t].mem.pending == 1
    ensures !run[t].cpus[j].pc.Running? && !Granted(run[t].cpus[j])
  {
    EveryStateInv(run, who, t);
    var e :| InvAt(run[t], e);
    AloneIsAlone(run[t], e, i, j);
  }

  lemma AloneIsAlone(s: State, e: int, i: nat, j: nat)
    requires InvAt(s, e) && i < |s.cpus| && j < |s.cpus| && i != j && Granted(s.cpus[i])
    ensures s.mem.pending == 1 && !s.cpus[j].pc.Running? && !Granted(s.cpus[j])
  {
    var v := ViewOf(s, e);
    assert CpuOk(v, i, s.cpus[i]) && CpuOk(v, j, s.cpus[j]);
    WaitersPositive(s.cpus);
  }

  /** Whenever the lock is free pending_cpus counts exactly the announced section and the CPUs
      it waits for, and each of those still has its decrement ahead of it. */
  lemma PendingCounts(run: seq<State>, who: seq<nat>, t: nat)
    requires Run(run, who) && t < |run| && run[t].mem.lock == Free
    ensures run[t].mem.pending == 0 ==> Waiters(run[t].cpus) == 0
    ensures run[t].mem.pending != 0 ==> run[t].mem.pending == 1 + Waiters(run[t].cpus)
    ensures forall k :: 0 <= k < |run[t].cpus| && run[t].cpus[k].hasWaiter ==> OwesDecrement(run[t].cpus[k].pc)
  {
    EveryStateInv(run, who, t);
    var e :| InvAt(run[t], e);
    var v := ViewOf(run[t], e);
    assert e != -1 ==> CpuOk(v, e, run[t].cpus[e]);
    assert forall k :: 0 <= k < |run[t].cpus| && run[t].cpus[k].hasWaiter ==> CpuOk(v, k, run[t].cpus[k]);
  }

  /** No wake-up is missed: with the lock free, a start_exclusive that still sleeps waits for some
      CPU whose decrement is ahead, and whoever sleeps in exclusive_idle waits for a section that
      is still under way. */
  lemma NoMissedSignal(run: seq<State>, who: seq<nat>, t: nat, i: nat)
    requires Run(run, who) && t < |run| && run[t].mem.lock == Free && i < |run[t].cpus|
    ensures run[t].cpus[i].pc == ExclSleep(false) ==>
              run[t].mem.pending > 1
              && exists k :: 0 <= k < |run[t].cpus| && run[t].cpus[k].hasWaiter && OwesDecrement(run[t].cpus[k].pc)
    ensures run[t].cpus[i].pc == StartSleep(false) || run[t].cpus[i].pc == ExclIdleSleep(false) ==>
              exists k :: 0 <= k < |run[t].cpus| && PhaseOf(run[t].cpus[k], |run[t].cpus|) != Nothing
  {
    PendingCounts(run, who, t);
    EveryStateInv(run, who, t);
    var s := run[t];
    var e :| InvAt(s, e);
    assert CpuOk(ViewOf(s, e), i, s.cpus[i]);
    assert e != -1 ==> CpuOk(ViewOf(s, e), e, s.cpus[e]);
    WaitersPositive(s.cpus);
  }

  /** How many own steps a marked CPU needs at most until its decrement. */
  function Debt(pc: Pc): nat {
    match pc
    case StartLoad => 8 case StartLock => 7 case StartCheck => 6 case StartUnlock => 5
    case Running => 4 case EndLoad => 3 case EndLock => 2 case EndCheck => 1
    case _ => 0
  }

  /** A marked CPU is never set back: nobody else moves it, every own step brings it closer to
      the decrement, and the last one takes exactly its own unit off pending_cpus. */
  lemma MarkedCpuAdvances(s: State, i: nat, s': State, k: nat)
    requires Inv(s) && Step(s, i, s') && k < |s.cpus| && s.cpus[k].hasWaiter
    ensures i != k ==> s'.cpus[k] == s.cpus[k]
    ensures i == k ==>
              || (s'.cpus[k].hasWaiter && Debt(s'.cpus[k].pc) < Debt(s.cpus[k].pc) && s'.mem.pending == s.mem.pending)
              || (!s'.cpus[k].hasWaiter && s'.mem.pending == s.mem.pending - 1)
  {
    var e :| InvAt(s, e);
    InvFits(s, e, k);
    if i != k && s.cpus[i].pc.ExclScan? { InvFits(s, e, i); }
  }

  // ---------------------------------------------------------------- refinement

  /** What the protocol is for: a set of CPUs executing guest code and a set of CPUs in an
      exclusive section, where each kind has to wait for the other. */
  datatype Sections = Sections(running: set<nat>, exclusive: set<nat>)

  predicate SectionsStep(a: Sections, b: Sections) {
    || a == b
    || (exists k | k in b.running :: k !in a.running && a.exclusive == {} && b == a.(running := a.running + {k}))
    || (exists k | k in a.running :: b == a.(running := a.running - {k}))
    || (exists k | k in b.exclusive :: a == Sections({}, {}) && b == Sections({}, {k}))
    || (exists k | k in a.exclusive :: a.exclusive == {k} && b == a.(exclusive := {}))
  }

  function Abstract(s: State): Sections {
    Sections(set k | 0 <= k < |s.cpus| && s.cpus[k].pc.Running? :: k,
             set k | 0 <= k < |s.cpus| && Granted(s.cpus[k]) :: k)
  }

  lemma OthersStay(s: State, i: nat, s': State, k: nat)
    requires Step(s, i, s') && k < |s.cpus| && k != i
    ensures s'.cpus[k].pc.Running? == s.cpus[k].pc.Running? && Granted(s'.cpus[k]) == Granted(s.cpus[k])
  {
  }

  predicate Changes(c: Cpu, c': Cpu) {
    c'.pc.Running? != c.pc.Running? || Granted(c') != Granted(c)
  }

  /** The only moves between the two kinds of section and the rest. */
  predicate Crossing(m: Mem, c: Cpu, c': Cpu) {
    if c'.pc.Running? then !Granted(c) && (c.pc.StartUnlock? || (c.pc.StartLoad? && m.pending == 0))
    else if c.pc.Running? then !Granted(c')
    else if Granted(c') then c.pc.ExclWait? && m.pending <= 1
    else c.pc.ReleaseReset?
  }

  lemma GuestMove(m: Mem, i: nat, c: Cpu, m': Mem, c': Cpu)
    requires StartStep(m, i, c, m', c') || EndStep(m, i, c, m', c')
    requires Changes(c, c') && DepthOk(c)
    ensures Crossing(m, c, c')
  {
  }

  lemma SectionMove(m: Mem, i: nat, c: Cpu, m': Mem, c': Cpu, n: nat)
    requires QueueStep(m, i, c, m', c') || AwaitStep(m, i, c, m', c', n) || ReleaseStep(m, i, c, m', c')
    requires Changes(c, c') && DepthOk(c)
    ensures Crossing(m, c, c')
  {
  }

  lemma LocalMove(m: Mem, i: nat, c: Cpu, m': Mem, c': Cpu, n: nat)
    requires LocalStep(m, i, c, m', c', n) && Changes(c, c') && DepthOk(c)
    ensures Crossing(m, c, c')
  {
    if StartStep(m, i, c, m', c') || EndStep(m, i, c, m', c') {
      GuestMove(m, i, c, m', c');
    } else if !IdleStep(m, c, m', c') {
      SectionMove(m, i, c, m', c', n);
    }
  }

  lemma OwnMove(s: State, i: nat, s': State)
    requires Step(s, i, s') && Changes(s.cpus[i], s'.cpus[i]) && DepthOk(s.cpus[i])
    ensures Crossing(s.mem, s.cpus[i], s'.cpus[i])
  {
    if LocalStep(s.mem, i, s.cpus[i], s'.mem, s'.cpus[i], |s.cpus|) {
      LocalMove(s.mem, i, s.cpus[i], s'.mem, s'.cpus[i], |s.cpus|);
    }
  }

  lemma NobodyInside(s: State, e: int, i: nat)
    requires InvAt(s, e) && i < |s.cpus|
    ensures s.cpus[i].pc.StartUnlock? || s.mem.pending == 0 ==> Abstract(s).exclusive == {}
    ensures s.cpus[i].pc.ExclWait? && s.mem.pending <= 1 ==> Abstract(s) == Sections({}, {})
    ensures Granted(s.cpus[i]) ==> Abstract(s) == Sections({}, {i})
  {
    var v := ViewOf(s, e);
    InvFits(s, e, i);
    forall k | 0 <= k < |s.cpus|
      ensures s.cpus[i].pc.StartUnlock? || s.mem.pending == 0 ==> !Granted(s.cpus[k])
      ensures s.cpus[i].pc.ExclWait? && s.mem.pending <= 1 ==> !s.cpus[k].pc.Running? && !Granted(s.cpus[k])
      ensures Granted(s.cpus[i]) ==> !s.cpus[k].pc.Running? && (Granted(s.cpus[k]) ==> k == i)
    {
      InvFits(s, e, k);
      KeptOut(v, i, s.cpus[i], k, s.cpus[k], Waiters(s.cpus));
    }
  }

  lemma KeptOut(v: View, i: nat, c: Cpu, k: nat, d: Cpu, waiters: nat)
    requires Fits(v, i, c, waiters) && Fits(v, k, d, waiters)
    ensures c.pc.StartUnlock? || v.mem.pending == 0 ==> !Granted(d)
    ensures c.pc.ExclWait? && v.mem.pending <= 1 ==> !d.pc.Running? && !Granted(d)
    ensures Granted(c) ==> !d.pc.Running? && (Granted(d) ==> k == i)
  {
  }

  /** What one thread's move does to the two sets. */
  lemma AbstractMove(s: State, i: nat, s': State)
    requires Step(s, i, s')
    ensures Abstract(s').running
         == if s'.cpus[i].pc.Running? then Abstract(s).running + {i} else Abstract(s).running - {i}
    ensures Abstract(s').exclusive
         == if Granted(s'.cpus[i]) then Abstract(s).exclusive + {i} else Abstract(s).exclusive - {i}
    ensures i in Abstract(s).running <==> s.cpus[i].pc.Running?
    ensures i in Abstract(s).exclusive <==> Granted(s.cpus[i])
  {
    var a, b := Abstract(s), Abstract(s');
    forall k | 0 <= k < |s.cpus| && k != i
      ensures (k in a.running <==> k in b.running) && (k in a.exclusive <==> k in b.exclusive)
    {
      OthersStay(s, i, s', k);
    }
  }

  /** A thread's own crossing is a move of the abstract sections. */
  lemma CrossingRefines(a: Sections, b: Sections, m: Mem, i: nat, c: Cpu, c': Cpu)
    requires Changes(c, c') && Crossing(m, c, c')
    requires (i in a.running <==> c.pc.Running?) && (i in a.exclusive <==> Granted(c))
    requires b.running == if c'.pc.Running? then a.running + {i} else a.running - {i}
    requires b.exclusive == if Granted(c') then a.exclusive + {i} else a.exclusive - {i}
    requires c.pc.StartUnlock? || m.pending == 0 ==> a.exclusive == {}
    requires c.pc.ExclWait? && m.pending <= 1 ==> a == Sections({}, {})
    requires Granted(c) ==> a == Sections({}, {i})
    ensures SectionsStep(a, b)
  {
    if c'.pc.Running? {
      assert i in b.running && b == a.(running := a.running + {i});
    } else if c.pc.Running? {
      assert i in a.running && b == a.(running := a.running - {i});
    } else if Granted(c') {
      assert i in b.exclusive && b == Sections({}, {i});
    } else {
      assert i in a.exclusive && b == a.(exclusive := {});
    }
  }

  /** Every step of every thread is a step of the abstract sections, or invisible there. */
  lemma StepRefines(s: State, i: nat, s': State)
    requires Inv(s) && Step(s, i, s')
    ensures SectionsStep(Abstract(s), Abstract(s'))
  {
    var a, b, c, c' := Abstract(s), Abstract(s'), s.cpus[i], s'.cpus[i];
    AbstractMove(s, i, s');
    if Changes(c, c') {
      var e :| InvAt(s, e);
      assert CpuOk(ViewOf(s, e), i, c);
      OwnMove(s, i, s');
      NobodyInside(s, e, i);
      CrossingRefines(a, b, s.mem, i, c, c');
    } else {
      assert a.running == b.running && a.exclusive == b.exclusive;
    }
  }

  /** A run of the protocol, seen abstractly, is a run of the sections. */
  lemma RunRefines(run: seq<State>, who: seq<nat>, t: nat)
    requires Run(run, who) && t < |who|
    ensures Abstract(run[0]) == Sections({}, {})
    ensures SectionsStep(Abstract(run[t]), Abstract(run[t + 1]))
  {
    EveryStateInv(run, who, t);
    StepRefines(run[t], who[t], run[t + 1]);
  }
}
