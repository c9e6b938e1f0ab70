/** The kernel supervisor: one mutex, a generation counter, a waitDone channel and one
  * waiter goroutine per started process.
  *
  * The fields the mutex protects live in the class Manager, whose methods are the stretches
  * of code that run without letting go of it. Section two composes those stretches with
  * callers, process exits and waiters into a step system. */
module Supervisor {
  import opened Collections
  import opened Wrappers

  type Pid = nat
  type Tid = nat

  datatype XrayState = Stopped | Running | Error

  // The mutex-protected fields. A waitDone channel is named by the process it belongs to.
  datatype Fields = Fields(
    cmd: Option<Pid>, state: XrayState, generation: nat,
    waitDone: Option<Pid>, bin: string, runningBin: string)

  // How an attempt to launch ends: the config is missing, the process cannot be made, or it runs.
  datatype LaunchOutcome = NoConfig | CannotRun | Launched(pid: Pid)

  // ---------- the code that runs under the mutex ----------

  function AfterLaunch(f: Fields, outcome: LaunchOutcome): Fields {
    match outcome
    case NoConfig => f
    case CannotRun => f.(state := Error)
    case Launched(p) =>
      f.(cmd := Some(p), state := Running, generation := f.generation + 1,
         waitDone := Some(p), runningBin := f.bin)
  }

  function AfterExit(f: Fields, state: XrayState): Fields {
    f.(cmd := None, runningBin := "", state := state)
  }

  // stopLocked up to its wait.
  function AfterStopBegin(f: Fields): Fields {
    if f.cmd.None? then f.(state := Stopped) else f.(generation := f.generation + 1)
  }

  // The waiter's verdict on an exit: a crash, unless a stop or a start came first.
  predicate IsCrash(f: Fields, gen: nat) { f.generation == gen }

  function AfterWaiter(f: Fields, gen: nat): Fields {
    if IsCrash(f, gen) then AfterExit(f, Error) else f
  }

  class Manager {
    var cmd: Option<Pid>
    var state: XrayState
    var generation: nat
    var waitDone: Option<Pid>
    var bin: string
    var runningBin: string

    ghost function View(): Fields
      reads this
    {
      Fields(cmd, state, generation, waitDone, bin, runningBin)
    }

    constructor (bin: string)
      ensures View() == Fields(None, Stopped, 0, None, bin, "")
    {
      cmd, state, generation, waitDone := None, Stopped, 0, None;
      this.bin, runningBin := bin, "";
    }

    method SetBinary(bin: string)
      modifies this
      ensures View() == old(View()).(bin := bin)
    {
      this.bin := bin;
    }

    method StartLocked(outcome: LaunchOutcome) returns (ok: bool)
      modifies this
      ensures View() == AfterLaunch(old(View()), outcome)
      ensures ok == outcome.Launched?
    {
      match outcome {
        case NoConfig =>
          return false;
        case CannotRun =>
          state := Error;
          return false;
        case Launched(p) =>
          cmd := Some(p);
          runningBin := bin;
          state := Running;
          generation := generation + 1;
          waitDone := Some(p);
          return true;
      }
    }

    // stopLocked up to its wait: the channel to wait on, or None when nothing runs.
    method StopBegin() returns (wait: Option<Pid>)
      modifies this
      ensures View() == AfterStopBegin(old(View()))
      ensures wait == if old(cmd).None? then None else waitDone
    {
      if cmd.None? {
        state := Stopped;
        return None;
      }
      generation := generation + 1;
      wait := waitDone;
    }

    // stopLocked after its wait.
    method StopEnd()
      modifies this
      ensures View() == AfterExit(old(View()), Stopped)
    {
      cmd, runningBin, state := None, "", Stopped;
    }

    // The waiter's critical section: is this exit a crash?
    method WaiterSection(gen: nat) returns (crashed: bool)
      modifies this
      ensures crashed <==> IsCrash(old(View()), gen)
      ensures View() == AfterWaiter(old(View()), gen)
    {
      if generation != gen {
        return false;
      }
      cmd, runningBin, state := None, "", Error;
      crashed := true;
    }
  }

  // ---------- the step system ----------

  datatype Op = OpStart | OpStop | OpRestart | OpApply

  // Where a caller is. Locked, Awaiting and Launching hold the mutex.
  datatype CallerPc =
    | Idle
    | Wants(op: Op)
    | Locked(op: Op)
    | Awaiting(op: Op, killed: bool)
    | Launching(op: Op)

  // Where a waiter is: in cmd.Wait, before closing waitDone, before taking the mutex,
  // after releasing it with a crash to report, done.
  datatype WaiterPc = Waiting | Reaped | Closed | Reporting | Finished

  // A process with its waiter, which captured gen when it was started.
  datatype Proc = Proc(alive: bool, gen: nat, pc: WaiterPc, bin: string)

  // reports lists the crash events sent; stopped is history, the processes a stop bumped
  // the generation for.
  datatype Sys = Sys(
    f: Fields, lock: Option<Tid>, procs: map<Pid, Proc>, callers: map<Tid, CallerPc>,
    reports: seq<Pid>, stopped: set<Pid>)

  datatype Step =
    | Call(t: Tid, op: Op)
    | Lock(t: Tid)
    | StartSkip(t: Tid)
    | StartGo(t: Tid)
    | StopNothing(t: Tid)
    | StopSignal(t: Tid)
    | KillTimeout(t: Tid)
    | StopDone(t: Tid)
    | Launch(t: Tid, outcome: LaunchOutcome)
    | SetBin(b: string)
    | Exit(p: Pid)
    | Reap(p: Pid)
    | Close(p: Pid)
    | WaiterLock(p: Pid)
    | Report(p: Pid)

  predicate At(s: Sys, t: Tid, pc: CallerPc) {
    t in s.callers && s.callers[t] == pc
  }

  predicate AwaitingExit(s: Sys, t: Tid) {
    t in s.callers && s.callers[t].Awaiting?
  }

  predicate Closable(s: Sys, p: Pid) {
    p in s.procs && s.procs[p].pc !in {Waiting, Reaped}
  }

  predicate Enabled(s: Sys, step: Step) {
    match step
    case Call(t, op) => t !in s.callers || s.callers[t].Idle?
    case Lock(t) => t in s.callers && s.callers[t].Wants? && s.lock.None?
    case StartSkip(t) => At(s, t, Locked(OpStart)) && s.f.state.Running?
    case StartGo(t) => At(s, t, Locked(OpStart)) && !s.f.state.Running?
    case StopNothing(t) =>
      t in s.callers && s.callers[t].Locked? && !s.callers[t].op.OpStart? && s.f.cmd.None?
    case StopSignal(t) =>
      t in s.callers && s.callers[t].Locked? && !s.callers[t].op.OpStart? && s.f.cmd.Some?
    case KillTimeout(t) => AwaitingExit(s, t) && !s.callers[t].killed
    case StopDone(t) => AwaitingExit(s, t) && s.f.waitDone.Some? && Closable(s, s.f.waitDone.value)
    case Launch(t, outcome) =>
      t in s.callers && s.callers[t].Launching? && (outcome.Launched? ==> outcome.pid !in s.procs)
    case SetBin(b) => s.lock.None?
    case Exit(p) => p in s.procs && s.procs[p].alive
    case Reap(p) => p in s.procs && !s.procs[p].alive && s.procs[p].pc.Waiting?
    case Close(p) => p in s.procs && s.procs[p].pc.Reaped?
    case WaiterLock(p) => p in s.procs && s.procs[p].pc.Closed? && s.lock.None?
    case Report(p) => p in s.procs && s.procs[p].pc.Reporting?
  }

  // What a stop leads to: Stop returns, Restart and Apply go on to launch.
  function AfterStopping(s: Sys, t: Tid, f: Fields, op: Op): Sys {
    if op.OpStop? then s.(f := f, lock := None, callers := s.callers[t := Idle])
    else s.(f := f, callers := s.callers[t := Launching(op)])
  }

  function SetWaiter(s: Sys, p: Pid, pc: WaiterPc): Sys
    requires p in s.procs
  {
    s.(procs := s.procs[p := s.procs[p].(pc := pc)])
  }

  function Do(s: Sys, step: Step): Sys
    requires Enabled(s, step)
  {
    match step
    case Call(t, op) => s.(callers := s.callers[t := Wants(op)])
    case Lock(t) => s.(lock := Some(t), callers := s.callers[t := Locked(s.callers[t].op)])
    case StartSkip(t) => s.(lock := None, callers := s.callers[t := Idle])
    case StartGo(t) => s.(callers := s.callers[t := Launching(OpStart)])
    case StopNothing(t) => AfterStopping(s, t, AfterStopBegin(s.f), s.callers[t].op)
    case StopSignal(t) =>
      s.(f := AfterStopBegin(s.f),
         callers := s.callers[t := Awaiting(s.callers[t].op, false)],
         stopped := s.stopped + {s.f.cmd.value})
    case KillTimeout(t) => s.(callers := s.callers[t := Awaiting(s.callers[t].op, true)])
    case StopDone(t) => AfterStopping(s, t, AfterExit(s.f, Stopped), s.callers[t].op)
    case Launch(t, outcome) =>
      var f := AfterLaunch(s.f, outcome);
      var done := s.(lock := None, callers := s.callers[t := Idle]);
      if outcome.Launched? then
        done.(f := f, procs := s.procs[outcome.pid := Proc(true, f.generation, Waiting, s.f.bin)])
      else if s.callers[t].op.OpApply? then done.(f := f.(state := Error))
      else done.(f := f)
    case SetBin(b) => s.(f := s.f.(bin := b))
    case Exit(p) => s.(procs := s.procs[p := s.procs[p].(alive := false)])
    case Reap(p) => SetWaiter(s, p, Reaped)
    case Close(p) => SetWaiter(s, p, Closed)
    case WaiterLock(p) =>
      SetWaiter(s, p, if IsCrash(s.f, s.procs[p].gen) then Reporting else Finished).(f := AfterWaiter(s.f, s.procs[p].gen))
    case Report(p) => SetWaiter(s, p, Finished).(reports := s.reports + [p])
  }

  ghost predicate Init(s: Sys) {
    && s.f.cmd.None? && s.f.state.Stopped? && s.f.waitDone.None? && s.f.runningBin == ""
    && s.lock.None? && s.procs == map[] && s.callers == map[] && s.reports == [] && s.stopped == {}
  }

  ghost predicate Next(s: Sys, s': Sys) {
    exists step :: Enabled(s, step) && s' == Do(s, step)
  }

  // ---------- the invariant ----------

  // The mutex is held by exactly the caller inside the critical section.
  ghost predicate LockOwned(s: Sys) {
    && (s.lock.Some? ==> s.lock.value in s.callers)
    && forall t :: t in s.callers ==>
         (s.lock == Some(t) <==> !s.callers[t].Idle? && !s.callers[t].Wants?)
  }

  // What state and cmd say about each other, by where the mutex holder is.
  ghost predicate StateAgrees(s: Sys) {
    if s.lock.Some? && s.lock.value in s.callers && s.callers[s.lock.value].Awaiting? then
      s.f.cmd.Some? && s.f.cmd.value in s.stopped
    else if s.lock.Some? && s.lock.value in s.callers && s.callers[s.lock.value].Launching? then
      s.f.cmd.None? && !s.f.state.Running?
    else
      (s.f.state.Running? <==> s.f.cmd.Some?) &&
      (s.f.cmd.Some? ==> s.f.cmd.value !in s.stopped)
  }

  predicate Undecided(w: Proc) { w.pc in {Waiting, Reaped, Closed} }

  ghost predicate CurrentTracked(s: Sys) {
    s.f.cmd.Some? ==>
      && s.f.cmd.value in s.procs
      && s.f.waitDone == s.f.cmd
      && s.f.runningBin == s.procs[s.f.cmd.value].bin
      && Undecided(s.procs[s.f.cmd.value])
  }

  // A Stop never gets as far as launching, a Start never waits for an exit, and without a process no
  // binary is on record as running.
  ghost predicate OpsFit(s: Sys) {
    && (forall t :: t in s.callers ==>
          (s.callers[t].Launching? ==> !s.callers[t].op.OpStop?) && (s.callers[t].Awaiting? ==> !s.callers[t].op.OpStart?))
    && (s.f.cmd.None? ==> s.f.runningBin == "")
  }

  ghost predicate WaiterAgrees(s: Sys, p: Pid)
    requires p in s.procs
  {
    var w := s.procs[p];
    && w.gen <= s.f.generation
    && (w.alive ==> s.f.cmd == Some(p) && w.pc.Waiting?)
    && (Undecided(w) ==> (w.gen == s.f.generation <==> p !in s.stopped))
    && (Undecided(w) && p !in s.stopped ==> s.f.cmd == Some(p))
    && (w.pc.Reporting? ==> p !in s.stopped)
    && (w.pc.Finished? ==> (p in s.reports <==> p !in s.stopped))
    && (!w.pc.Finished? ==> p !in s.reports)
  }

  ghost predicate Inv(s: Sys) {
    && LockOwned(s) && StateAgrees(s) && CurrentTracked(s) && OpsFit(s)
    && s.stopped <= s.procs.Keys
    && (forall p :: p in s.procs ==> WaiterAgrees(s, p))
    && (forall p :: p in s.reports ==> p in s.procs)
    && Unique(s.reports)
  }

  lemma LockOwnedHolds(s: Sys, step: Step)
    requires Inv(s) && Enabled(s, step)
    ensures LockOwned(Do(s, step))
  {
  }

  lemma FieldsHold(s: Sys, step: Step)
    requires Inv(s) && Enabled(s, step)
    ensures StateAgrees(Do(s, step)) && CurrentTracked(Do(s, step))
  {
    match step {
      case WaiterLock(p) => assert WaiterAgrees(s, p);
      case Exit(p) => assert WaiterAgrees(s, p);
      case Report(p) => assert WaiterAgrees(s, p);
      case StopDone(t) => assert WaiterAgrees(s, s.f.cmd.value);
      case _ =>
    }
  }

  lemma OpsStayFit(s: Sys, step: Step)
    requires Inv(s) && Enabled(s, step)
    ensures OpsFit(Do(s, step))
  {
  }

  // Steps of the processes themselves and their waiters, as opposed to steps of callers.
  predicate OfProcess(step: Step) {
    step.Exit? || step.Reap? || step.Close? || step.WaiterLock? || step.Report?
  }

  lemma ProcessStepsKeepWaiters(s: Sys, step: Step, q: Pid)
    requires Inv(s) && Enabled(s, step) && OfProcess(step) && q in s.procs
    ensures WaiterAgrees(Do(s, step), q)
  {
    assert WaiterAgrees(s, q);
    assert WaiterAgrees(s, step.p);
  }

  lemma CallerStepsKeepWaiters(s: Sys, step: Step, q: Pid)
    requires Inv(s) && Enabled(s, step) && !OfProcess(step) && !step.Launch? && q in s.procs
    ensures WaiterAgrees(Do(s, step), q)
  {
    assert WaiterAgrees(s, q);
    if s.f.cmd.Some? { assert WaiterAgrees(s, s.f.cmd.value); }
  }

  lemma LaunchKeepsWaiters(s: Sys, step: Step, q: Pid)
    requires Inv(s) && Enabled(s, step) && step.Launch? && q in Do(s, step).procs
    ensures WaiterAgrees(Do(s, step), q)
  {
    if q in s.procs { assert WaiterAgrees(s, q); }
  }

  lemma WaitersHold(s: Sys, step: Step, q: Pid)
    requires Inv(s) && Enabled(s, step)
    requires q in Do(s, step).procs
    ensures WaiterAgrees(Do(s, step), q)
  {
    if OfProcess(step) {
      ProcessStepsKeepWaiters(s, step, q);
    } else if step.Launch? {
      LaunchKeepsWaiters(s, step, q);
    } else {
      CallerStepsKeepWaiters(s, step, q);
    }
  }

  lemma ReportsHold(s: Sys, step: Step)
    requires Inv(s) && Enabled(s, step)
    ensures var s' := Do(s, step);
            && s'.stopped <= s'.procs.Keys
            && (forall p :: p in s'.reports ==> p in s'.procs)
            && Unique(s'.reports)
  {
    if step.Report? { assert WaiterAgrees(s, step.p); }
  }

  lemma InvHolds(s: Sys, step: Step)
    requires Inv(s) && Enabled(s, step)
    ensures Inv(Do(s, step))
  {
    LockOwnedHolds(s, step);
    FieldsHold(s, step);
    OpsStayFit(s, step);
    ReportsHold(s, step);
    forall q | q in Do(s, step).procs ensures WaiterAgrees(Do(s, step), q) {
      WaitersHold(s, step, q);
    }
  }

  // ---------- safety over every run ----------

  ghost predicate Run(r: seq<Sys>) {
    |r| > 0 && Init(r[0]) && forall i :: 0 <= i < |r| - 1 ==> Next(r[i], r[i + 1])
  }

  lemma {:induction false} InvOnRun(r: seq<Sys>, i: nat)
    requires Run(r) && i < |r|
    ensures Inv(r[i])
  {
    if i > 0 {
      InvOnRun(r, i - 1);
      assert Next(r[i - 1], r[i - 1 + 1]);
      var step :| Enabled(r[i - 1], step) && r[i] == Do(r[i - 1], step);
      InvHolds(r[i - 1], step);
    }
  }

  // At most one kernel process is live, whoever is in the middle of what.
  lemma AtMostOneKernel(r: seq<Sys>, i: nat, p: Pid, q: Pid)
    requires Run(r) && i < |r|
    requires p in r[i].procs && r[i].procs[p].alive
    requires q in r[i].procs && r[i].procs[q].alive
    ensures p == q
  {
    InvOnRun(r, i);
    assert WaiterAgrees(r[i], p) && WaiterAgrees(r[i], q);
  }

  // Whoever takes the mutex finds a truthful state: RUNNING exactly when there is a process,
  // and then the recorded binary is the one that process was started from.
  lemma FreeLockTellsTruth(r: seq<Sys>, i: nat)
    requires Run(r) && i < |r| && r[i].lock.None?
    ensures r[i].f.state.Running? <==> r[i].f.cmd.Some?
    ensures r[i].f.state.Running? ==>
              r[i].f.cmd.value in r[i].procs &&
              r[i].f.runningBin == r[i].procs[r[i].f.cmd.value].bin
    ensures forall p :: p in r[i].procs && r[i].procs[p].alive ==> r[i].f.state.Running?
  {
    InvOnRun(r, i);
    assert forall p :: p in r[i].procs ==> WaiterAgrees(r[i], p);
  }

  lemma {:induction false} DistinctCountsOnce(xs: seq<Pid>, p: Pid)
    requires Unique(xs)
    ensures multiset(xs)[p] <= 1
  {
    if |xs| > 0 {
      var init, last := xs[..|xs| - 1], xs[|xs| - 1];
      assert xs == init + [last];
      DistinctCountsOnce(init, p);
      if p == last { assert p !in init; }
    }
  }

  // A crash is reported at most once per process, never for a live one, and a waiter that is
  // through has reported exactly the exits no stop had claimed.
  lemma CrashReportsExact(r: seq<Sys>, i: nat, p: Pid)
    requires Run(r) && i < |r| && p in r[i].procs
    ensures p in r[i].reports ==> !r[i].procs[p].alive && p !in r[i].stopped
    ensures r[i].procs[p].pc.Finished? ==> (p in r[i].reports <==> p !in r[i].stopped)
    ensures multiset(r[i].reports)[p] <= 1
  {
    InvOnRun(r, i);
    assert WaiterAgrees(r[i], p);
    DistinctCountsOnce(r[i].reports, p);
  }

  // ---------- what a call has done by the time it returns ----------

  predicate Holds(s: Sys, t: Tid) { s.lock == Some(t) && t in s.callers && !s.callers[t].Idle? && !s.callers[t].Wants? }

  predicate Returned(s: Sys, t: Tid) { t in s.callers && s.callers[t].Idle? }

  // A caller is at one call from asking for the mutex until it returns.
  lemma CallKeepsItsOp(s: Sys, step: Step, t: Tid)
    requires Inv(s) && Enabled(s, step) && t in s.callers && !s.callers[t].Idle?
    ensures t in Do(s, step).callers
    ensures !Returned(Do(s, step), t) ==> Do(s, step).callers[t].op == s.callers[t].op
    ensures Returned(Do(s, step), t) ==> Holds(s, t)
  {
  }

  // How a launch leaves things: the new process runs the configured binary, or nothing runs and the
  // state says why.
  ghost predicate LaunchedAs(s: Sys, s': Sys, outcome: LaunchOutcome, op: Op) {
    match outcome
    case Launched(p) =>
      && p !in s.procs && p in s'.procs && s'.procs[p].alive && s'.procs[p].bin == s.f.bin
      && s'.f.cmd == Some(p) && s'.f.state.Running? && s'.f.runningBin == s.f.bin
    case CannotRun => s'.f.cmd.None? && s'.f.state.Error?
    case NoConfig => s'.f.cmd.None? && s'.f.state == if op.OpApply? then Error else s.f.state
  }

  // The configured binary is the one last set.
  lemma OnlySettingChangesTheBinary(s: Sys, step: Step)
    requires Enabled(s, step)
    ensures Do(s, step).f.bin == if step.SetBin? then step.b else s.f.bin
  {
  }

  // Restart and Apply never return with the old kernel stopped and no launch behind it.
  lemma RestartReturnsByLaunching(s: Sys, step: Step, t: Tid)
    requires Inv(s) && Enabled(s, step) && Holds(s, t) && s.callers[t].op in {OpRestart, OpApply}
    requires Returned(Do(s, step), t)
    ensures step.Launch? && step.t == t && LaunchedAs(s, Do(s, step), step.outcome, s.callers[t].op)
    ensures forall p :: p in s.procs ==> !s.procs[p].alive
  {
    forall p | p in s.procs ensures !s.procs[p].alive { assert WaiterAgrees(s, p); }
  }

  // Stop returns with nothing running.
  lemma StopReturnsStopped(s: Sys, step: Step, t: Tid)
    requires Inv(s) && Enabled(s, step) && Holds(s, t) && s.callers[t].op.OpStop? && Returned(Do(s, step), t)
    ensures var s' := Do(s, step);
            s'.f.cmd.None? && s'.f.state.Stopped? && s'.f.runningBin == "" && forall p :: p in s'.procs ==> !s'.procs[p].alive
  {
    assert s.f.cmd.Some? ==> WaiterAgrees(s, s.f.cmd.value);
    forall p | p in s.procs ensures !Do(s, step).procs[p].alive { assert WaiterAgrees(s, p); }
  }

  // Start returns without launching only when it found the kernel running, and then it has touched
  // nothing.
  lemma StartReturnsStarted(s: Sys, step: Step, t: Tid)
    requires Inv(s) && Enabled(s, step) && Holds(s, t) && s.callers[t].op.OpStart? && Returned(Do(s, step), t)
    ensures if step.Launch? && step.t == t then LaunchedAs(s, Do(s, step), step.outcome, OpStart)
            else s.f.state.Running? && Do(s, step).f == s.f && Do(s, step).procs == s.procs
  {
  }

  // A crash is recorded as one: the waiter that finds its generation current leaves nothing running
  // and the state ERROR, and goes on to report it; any other waiter changes no field.
  lemma CrashIsRecorded(s: Sys, p: Pid)
    requires Inv(s) && Enabled(s, WaiterLock(p))
    ensures var s' := Do(s, WaiterLock(p));
            if p in s.stopped then s'.f == s.f && s'.procs[p].pc.Finished?
            else s.f.cmd == Some(p) && s'.f.cmd.None? && s'.f.state.Error? && s'.f.runningBin == "" && s'.procs[p].pc.Reporting?
  {
    assert WaiterAgrees(s, p);
  }

  // The same for whole calls of a run: from asking for the mutex at i to the first return at j.
  ghost predicate Called(r: seq<Sys>, i: nat, j: nat, t: Tid, op: Op)
    requires i < j < |r|
  {
    && t in r[i].callers && r[i].callers[t] == Wants(op) && Returned(r[j], t)
    && forall k :: i <= k < j ==> !Returned(r[k], t)
  }

  lemma {:induction false} OpAllAlong(r: seq<Sys>, i: nat, j: nat, t: Tid, op: Op, k: nat)
    requires Run(r) && i <= k < j < |r| && Called(r, i, j, t, op)
    ensures t in r[k].callers && !r[k].callers[t].Idle? && r[k].callers[t].op == op
  {
    if i < k {
      OpAllAlong(r, i, j, t, op, k - 1);
      InvOnRun(r, k - 1);
      assert Next(r[k - 1], r[k - 1 + 1]);
      var step :| Enabled(r[k - 1], step) && r[k] == Do(r[k - 1], step);
      CallKeepsItsOp(r[k - 1], step, t);
    }
  }

  lemma LastStepOfCall(r: seq<Sys>, i: nat, j: nat, t: Tid, op: Op) returns (step: Step)
    requires Run(r) && i < j < |r| && Called(r, i, j, t, op)
    ensures Inv(r[j - 1]) && Enabled(r[j - 1], step) && r[j] == Do(r[j - 1], step)
    ensures Holds(r[j - 1], t) && r[j - 1].callers[t].op == op
  {
    OpAllAlong(r, i, j, t, op, j - 1);
    InvOnRun(r, j - 1);
    assert Next(r[j - 1], r[j - 1 + 1]);
    step :| Enabled(r[j - 1], step) && r[j] == Do(r[j - 1], step);
    CallKeepsItsOp(r[j - 1], step, t);
  }

  lemma RestartsEndInALaunch(r: seq<Sys>, i: nat, j: nat, t: Tid, op: Op)
    requires Run(r) && i < j < |r| && Called(r, i, j, t, op) && op in {OpRestart, OpApply}
    ensures exists outcome :: Enabled(r[j - 1], Launch(t, outcome)) && r[j] == Do(r[j - 1], Launch(t, outcome)) &&
                              LaunchedAs(r[j - 1], r[j], outcome, op)
  {
    var step := LastStepOfCall(r, i, j, t, op);
    RestartReturnsByLaunching(r[j - 1], step, t);
    assert step == Launch(t, step.outcome);
  }

  lemma StopsEndStopped(r: seq<Sys>, i: nat, j: nat, t: Tid)
    requires Run(r) && i < j < |r| && Called(r, i, j, t, OpStop)
    ensures r[j].f.cmd.None? && r[j].f.state.Stopped? && forall p :: p in r[j].procs ==> !r[j].procs[p].alive
  {
    var step := LastStepOfCall(r, i, j, t, OpStop);
    StopReturnsStopped(r[j - 1], step, t);
  }

  lemma StartsEndStarted(r: seq<Sys>, i: nat, j: nat, t: Tid)
    requires Run(r) && i < j < |r| && Called(r, i, j, t, OpStart)
    ensures (r[j - 1].f.state.Running? && r[j].f == r[j - 1].f && r[j].procs == r[j - 1].procs) ||
            exists outcome :: Enabled(r[j - 1], Launch(t, outcome)) && r[j] == Do(r[j - 1], Launch(t, outcome)) &&
                              LaunchedAs(r[j - 1], r[j], outcome, OpStart)
  {
    var step := LastStepOfCall(r, i, j, t, OpStart);
    StartReturnsStarted(r[j - 1], step, t);
    if step.Launch? && step.t == t { assert step == Launch(t, step.outcome); }
  }

  // ---------- a stop that waits under the mutex is never stuck ----------

  // How far the awaited process is from having its waitDone channel closed.
  function Distance(s: Sys, t: Tid): nat
    requires AwaitingExit(s, t)
  {
    if s.f.cmd.None? || s.f.cmd.value !in s.procs then 0
    else
      var w := s.procs[s.f.cmd.value];
      if w.alive then (if s.callers[t].killed then 3 else 4) else if w.pc.Waiting? then 2 else if w.pc.Reaped? then 1 else 0
  }

  // The one step the wait depends on next. Only the last takes or needs the mutex, which is why
  // the waiter has to close the channel before it locks.
  function HelpfulStep(s: Sys, t: Tid): Step
    requires AwaitingExit(s, t) && s.f.cmd.Some?
  {
    match Distance(s, t)
    case 4 => KillTimeout(t)
    case 3 => Exit(s.f.cmd.value)
    case 2 => Reap(s.f.cmd.value)
    case 1 => Close(s.f.cmd.value)
    case _ => StopDone(t)
  }

  // A step the runtime or the operating system owes, when it can be taken. A process may ignore
  // the interrupt for as long as it likes; it owes its exit only once it has been killed.
  predicate Obliged(s: Sys, act: Step) {
    Enabled(s, act) &&
    (act.Exit? ==> s.lock.Some? && s.lock.value in s.callers && s.callers[s.lock.value].Awaiting? && s.callers[s.lock.value].killed)
  }

  lemma HelpIsAvailable(s: Sys, t: Tid)
    requires Inv(s) && AwaitingExit(s, t)
    ensures s.lock == Some(t) && s.f.cmd.Some?
    ensures Obliged(s, HelpfulStep(s, t))
  {
    assert WaiterAgrees(s, s.f.cmd.value);
  }

  // Nothing anyone does moves the wait backwards, and the helpful step moves it forwards.
  lemma WaitOnlyShrinks(s: Sys, t: Tid, step: Step)
    requires Inv(s) && AwaitingExit(s, t) && Enabled(s, step)
    ensures if step == StopDone(t) then !AwaitingExit(Do(s, step), t)
            else
              var s' := Do(s, step);
              AwaitingExit(s', t) && s'.f.cmd == s.f.cmd && Distance(s', t) <= Distance(s, t) &&
              (s.f.cmd.Some? && step == HelpfulStep(s, t) ==> Distance(s', t) < Distance(s, t))
  {
    HelpIsAvailable(s, t);
    assert WaiterAgrees(s, s.f.cmd.value);
  }

  // An endless run, with the step taken at each moment.
  ghost predicate EndlessRun(state: nat -> Sys, step: nat -> Step) {
    && Init(state(0))
    && forall i: nat :: Enabled(state(i), step(i)) && state(i + 1) == Do(state(i), step(i))
  }

  ghost predicate ObligedFrom(state: nat -> Sys, act: Step, i: nat) { forall j: nat :: i <= j ==> Obliged(state(j), act) }

  ghost predicate TakenFrom(step: nat -> Step, act: Step, i: nat) { exists j: nat :: i <= j && step(j) == act }

  // Weak fairness: a step that stays owed from some moment on is taken.
  ghost predicate Fair(state: nat -> Sys, step: nat -> Step, act: Step) {
    forall i: nat :: ObligedFrom(state, act, i) ==> TakenFrom(step, act, i)
  }

  ghost predicate FairTo(state: nat -> Sys, step: nat -> Step, t: Tid) {
    Fair(state, step, KillTimeout(t)) && Fair(state, step, StopDone(t)) &&
    forall p :: Fair(state, step, Exit(p)) && Fair(state, step, Reap(p)) && Fair(state, step, Close(p))
  }

  lemma {:induction false} InvOnEndlessRun(state: nat -> Sys, step: nat -> Step, i: nat)
    requires EndlessRun(state, step)
    ensures Inv(state(i))
  {
    if i > 0 {
      InvOnEndlessRun(state, step, i - 1);
      assert state(i - 1 + 1) == Do(state(i - 1), step(i - 1));
      InvHolds(state(i - 1), step(i - 1));
    }
  }

  // A stop that is still waiting waits for the same process at no greater a distance.
  lemma {:induction false} StillWaiting(state: nat -> Sys, step: nat -> Step, t: Tid, i: nat, j: nat)
    requires EndlessRun(state, step) && i <= j
    requires forall k: nat :: i <= k <= j ==> AwaitingExit(state(k), t)
    ensures state(j).f.cmd == state(i).f.cmd && Distance(state(j), t) <= Distance(state(i), t)
    decreases j
  {
    if i < j {
      StillWaiting(state, step, t, i, j - 1);
      InvOnEndlessRun(state, step, j - 1);
      WaitOnlyShrinks(state(j - 1), t, step(j - 1));
      assert state(j - 1 + 1) == Do(state(j - 1), step(j - 1));
    }
  }

  // A wait that came no closer for ever would owe one and the same step for ever.
  lemma StuckOwesOneStep(state: nat -> Sys, step: nat -> Step, t: Tid, i: nat)
    requires EndlessRun(state, step)
    requires forall k: nat :: i <= k ==> AwaitingExit(state(k), t)
    requires forall k: nat :: i <= k ==> Distance(state(k), t) >= Distance(state(i), t)
    ensures state(i).f.cmd.Some? && ObligedFrom(state, HelpfulStep(state(i), t), i)
  {
    InvOnEndlessRun(state, step, i);
    HelpIsAvailable(state(i), t);
    forall j: nat | i <= j ensures Obliged(state(j), HelpfulStep(state(i), t)) {
      StillWaiting(state, step, t, i, j);
      InvOnEndlessRun(state, step, j);
      HelpIsAvailable(state(j), t);
    }
  }

  // Every stop that waits under the mutex comes to an end.
  lemma {:induction false} StopCompletes(state: nat -> Sys, step: nat -> Step, t: Tid, i: nat)
    requires EndlessRun(state, step) && FairTo(state, step, t)
    ensures exists k: nat :: i <= k && !AwaitingExit(state(k), t)
    decreases if AwaitingExit(state(i), t) then Distance(state(i), t) else 0
  {
    if forall k: nat :: i <= k ==> AwaitingExit(state(k), t) {
      if k: nat :| i <= k && Distance(state(k), t) < Distance(state(i), t) {
        StopCompletes(state, step, t, k);
      } else {
        StuckOwesOneStep(state, step, t, i);
        var act := HelpfulStep(state(i), t);
        assert TakenFrom(step, act, i);
        var j: nat :| i <= j && step(j) == act;
        StillWaiting(state, step, t, i, j);
        InvOnEndlessRun(state, step, j);
        WaitOnlyShrinks(state(j), t, step(j));
        assert state(j + 1) == Do(state(j), step(j));
        assert AwaitingExit(state(j + 1), t);
      }
    }
  }

  // Nothing is left half done: no caller inside or queued, no waiter with work to do.
  ghost predicate AtRest(s: Sys) {
    && (forall t :: t in s.callers ==> s.callers[t].Idle?)
    && (forall p :: p in s.procs ==> s.procs[p].alive || s.procs[p].pc.Finished?)
  }

  // The steps of work already begun, as opposed to new calls and binary changes.
  predicate Ongoing(step: Step) { !step.Call? && !step.SetBin? }

  lemma HolderCanMove(s: Sys, t: Tid)
    requires Inv(s) && s.lock == Some(t)
    ensures exists step :: Ongoing(step) && Enabled(s, step)
  {
    if AwaitingExit(s, t) {
      HelpIsAvailable(s, t);
      assert Ongoing(HelpfulStep(s, t));
    } else {
      var step := match s.callers[t]
        case Locked(op) =>
          if op.OpStart? then (if s.f.state.Running? then StartSkip(t) else StartGo(t))
          else if s.f.cmd.None? then StopNothing(t) else StopSignal(t)
        case _ => Launch(t, NoConfig);
      assert Ongoing(step) && Enabled(s, step);
    }
  }

  // The supervisor cannot deadlock: with work left, somebody can move.
  lemma SomeoneCanMove(s: Sys)
    requires Inv(s) && !AtRest(s)
    ensures exists step :: Ongoing(step) && Enabled(s, step)
  {
    if s.lock.Some? {
      HolderCanMove(s, s.lock.value);
    } else if t :| t in s.callers && !s.callers[t].Idle? {
      assert Enabled(s, Lock(t));
    } else {
      var p :| p in s.procs && !s.procs[p].alive && !s.procs[p].pc.Finished?;
      var step := match s.procs[p].pc
        case Waiting => Reap(p)
        case Reaped => Close(p)
        case Closed => WaiterLock(p)
        case _ => Report(p);
      assert Ongoing(step) && Enabled(s, step);
    }
  }
}
