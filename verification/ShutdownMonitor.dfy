/**
 * The shutdown monitor of AppAtlModule.cpp as a system of interleaved atomic
 * steps: any number of threads that lock and unlock the module, and one monitor
 * thread.  A run is a start state and a list of steps; reading the activity
 * flag and reading the lock count are separate steps of the monitor.
 */
module ShutdownMonitor {

  type Tid = nat

  /** Where a thread is whose Unlock has brought the count to zero. */
  datatype Worker = Decremented | FlagStored

  /** The monitor's next action. */
  datatype Pc =
    | WaitForever
    | ClearFlag
    | WaitTimed
    | ReadFlag
    | ReadCount
    | Suspend
    | ReadFlagAgain
    | ReadCountAgain
    | CloseEvent
    | PostQuit
    | Done

  datatype State = State(
    lockCount: nat,
    activity: bool,
    event: bool,
    suspended: bool,
    pc: Pc,
    inFlight: map<Tid, Worker>,
    reachedZero: bool)

  /**
   * freeThreaded: the second check, after suspending the class objects, is
   * compiled in.  risesByActivation: a count of zero is only left through an
   * activation, which suspended class objects refuse.
   */
  datatype Build = Build(freeThreaded: bool, risesByActivation: bool)

  datatype Step =
    | Lock
    | Unlock(tid: Tid)
    | StoreFlag(tid: Tid)
    | Signal(tid: Tid)
    | Wake
    | Clear
    | WakeTimed
    | TimeOut
    | TestFlag
    | TestCount
    | SuspendClasses
    | TestFlagAgain
    | TestCountAgain
    | Close
    | Post

  predicate Enabled(b: Build, s: State, step: Step) {
    match step
    case Lock => s.lockCount > 0 || !b.risesByActivation || !s.suspended
    case Unlock(tid) => s.lockCount > 0 && tid !in s.inFlight
    case StoreFlag(tid) => tid in s.inFlight && s.inFlight[tid].Decremented?
    case Signal(tid) => tid in s.inFlight && s.inFlight[tid].FlagStored?
    case Wake => s.pc.WaitForever? && s.event
    case Clear => s.pc.ClearFlag?
    case WakeTimed => s.pc.WaitTimed? && s.event
    case TimeOut => s.pc.WaitTimed? && !s.event
    case TestFlag => s.pc.ReadFlag?
    case TestCount => s.pc.ReadCount?
    case SuspendClasses => s.pc.Suspend?
    case TestFlagAgain => s.pc.ReadFlagAgain?
    case TestCountAgain => s.pc.ReadCountAgain?
    case Close => s.pc.CloseEvent?
    case Post => s.pc.PostQuit?
  }

  function Apply(b: Build, s: State, step: Step): State
    requires Enabled(b, s, step)
  {
    match step
    case Lock => s.(lockCount := s.lockCount + 1)
    case Unlock(tid) =>
      if s.lockCount == 1 then
        s.(lockCount := 0, inFlight := s.inFlight[tid := Decremented], reachedZero := true)
      else
        s.(lockCount := s.lockCount - 1)
    case StoreFlag(tid) => s.(activity := true, inFlight := s.inFlight[tid := FlagStored])
    case Signal(tid) => s.(event := true, inFlight := s.inFlight - {tid})
    case Wake => s.(event := false, pc := ClearFlag)
    case Clear => s.(activity := false, pc := WaitTimed)
    case WakeTimed => s.(event := false, pc := ClearFlag)
    case TimeOut => s.(pc := ReadFlag)
    case TestFlag => s.(pc := if s.activity then WaitForever else ReadCount)
    case TestCount =>
      s.(pc := if s.lockCount != 0 then WaitForever else if b.freeThreaded then Suspend else CloseEvent)
    case SuspendClasses => s.(suspended := true, pc := ReadFlagAgain)
    case TestFlagAgain => s.(pc := if s.activity then WaitForever else ReadCountAgain)
    case TestCountAgain => s.(pc := if s.lockCount != 0 then WaitForever else CloseEvent)
    case Close => s.(pc := PostQuit)
    case Post => s.(pc := Done)
  }

  /** StartMonitor: an unsignalled event and a parked monitor; the flag is not initialised. */
  predicate Init(s: State) {
    !s.event && !s.suspended && s.pc.WaitForever? && s.inFlight == map[] && !s.reachedZero
  }

  datatype Run = Run(states: seq<State>, steps: seq<Step>)

  predicate StepTaken(b: Build, run: Run, i: nat)
    requires |run.states| == |run.steps| + 1 && i < |run.steps|
  {
    Enabled(b, run.states[i], run.steps[i]) && run.states[i + 1] == Apply(b, run.states[i], run.steps[i])
  }

  /** An interleaving: step i leads from state i to state i + 1. */
  predicate IsRun(b: Build, run: Run) {
    && |run.states| == |run.steps| + 1
    && Init(run.states[0])
    && forall i {:trigger StepTaken(b, run, i)} :: 0 <= i < |run.steps| ==> StepTaken(b, run, i)
  }

  // -------------------------------------------------------------- no lost wake-up

  /** The monitor has cleared the flag and has not gone back to waiting since. */
  predicate Checking(pc: Pc) {
    pc in {WaitTimed, ReadFlag, ReadCount, Suspend, ReadFlagAgain, ReadCountAgain}
  }

  predicate Exiting(pc: Pc) {
    pc in {CloseEvent, PostQuit, Done}
  }

  /** A wake-up is on its way: the event is signalled, or a thread is about to signal it. */
  predicate WakePending(s: State) {
    s.event || s.inFlight != map[]
  }

  predicate NoLostWakeup(s: State) {
    s.pc.WaitForever? && s.lockCount == 0 && s.reachedZero ==> WakePending(s)
  }

  predicate Inv(s: State) {
    NoLostWakeup(s) && (Checking(s.pc) && s.activity ==> WakePending(s))
  }

  lemma {:induction false} StepKeepsInv(b: Build, s: State, step: Step)
    requires Inv(s) && Enabled(b, s, step)
    ensures Inv(Apply(b, s, step))
  {
    var s' := Apply(b, s, step);
    match step
    case Unlock(tid) =>
      assert s.lockCount == 1 ==> tid in s'.inFlight;
    case StoreFlag(tid) =>
      assert tid in s'.inFlight;
    case _ =>
  }

  /**
   * In every state of every run a parked monitor that could shut down - the
   * count is zero and an unlock has brought it there - has a wake-up coming.
   */
  lemma {:induction false} NoWakeupIsLost(b: Build, run: Run, n: nat)
    requires IsRun(b, run) && n < |run.states|
    ensures NoLostWakeup(run.states[n])
    ensures Inv(run.states[n])
  {
    if n > 0 {
      assert StepTaken(b, run, n - 1);
      NoWakeupIsLost(b, run, n - 1);
      StepKeepsInv(b, run.states[n - 1], run.steps[n - 1]);
    }
  }

  // ------------------------------------------------------- what a run has done so far

  /** How much the steps raise the lock count: by one for each Lock, down by one for each Unlock. */
  function Balance(steps: seq<Step>): int {
    if steps == [] then 0
    else
      var last := steps[|steps| - 1];
      Balance(steps[..|steps| - 1]) + if last.Lock? then 1 else if last.Unlock? then -1 else 0
  }

  /** The lock count is at all times what the locks and unlocks so far leave of it. */
  lemma {:induction false} CountIsBalance(b: Build, run: Run, n: nat)
    requires IsRun(b, run) && n < |run.states|
    ensures run.states[n].lockCount == run.states[0].lockCount + Balance(run.steps[..n])
  {
    if n > 0 {
      assert StepTaken(b, run, n - 1);
      CountIsBalance(b, run, n - 1);
      assert run.steps[..n][..n - 1] == run.steps[..n - 1];
    }
  }

  /** Class objects, once suspended, stay so; and nothing else suspends them. */
  lemma {:induction false} SuspendedSince(b: Build, run: Run, n: nat)
    requires IsRun(b, run) && n < |run.states|
    ensures run.states[n].suspended <==> exists m :: 0 <= m < n && run.steps[m].SuspendClasses?
  {
    if n > 0 {
      assert StepTaken(b, run, n - 1);
      SuspendedSince(b, run, n - 1);
      assert run.steps[n - 1].SuspendClasses? ==> run.states[n].suspended;
    }
  }

  /** A lock is refused exactly at count zero after a suspension, where a rise from zero needs an activation. */
  lemma LockRefusedExactly(b: Build, run: Run, n: nat)
    requires IsRun(b, run) && n < |run.states|
    ensures !Enabled(b, run.states[n], Lock)
            <==> run.states[n].lockCount == 0 && b.risesByActivation
                 && exists m :: 0 <= m < n && run.steps[m].SuspendClasses?
  {
    SuspendedSince(b, run, n);
  }

  /** In step m the thread has brought the count to zero, and it has not signalled before state n. */
  ghost predicate Announcing(run: Run, tid: Tid, m: nat, n: nat)
    requires |run.states| == |run.steps| + 1 && n < |run.states|
  {
    && m < n && run.steps[m] == Step.Unlock(tid) && run.states[m].lockCount == 1
    && forall j :: m < j < n ==> run.steps[j] != Signal(tid)
  }

  /** Has the thread stored the flag since step m? */
  ghost predicate HasStored(run: Run, tid: Tid, m: nat, n: nat)
    requires n <= |run.steps|
  {
    exists j :: m < j < n && run.steps[j] == StoreFlag(tid)
  }

  /** A thread in flight is one whose unlock has reached zero; it stores the flag before it signals. */
  lemma {:induction false} InFlightSince(b: Build, run: Run, n: nat, tid: Tid) returns (m: nat)
    requires IsRun(b, run) && n < |run.states| && tid in run.states[n].inFlight
    ensures Announcing(run, tid, m, n)
    ensures run.states[n].inFlight[tid].FlagStored? <==> HasStored(run, tid, m, n)
  {
    var s, step := run.states[n - 1], run.steps[n - 1];
    assert StepTaken(b, run, n - 1);
    if step == Step.Unlock(tid) {
      m := n - 1;
    } else {
      m := InFlightSince(b, run, n - 1, tid);
      if step == StoreFlag(tid) {
        assert HasStored(run, tid, m, n);
      }
      if HasStored(run, tid, m, n - 1) {
        assert HasStored(run, tid, m, n);
      }
    }
  }

  /** And every unlock that reaches zero puts its thread in flight until it has signalled. */
  lemma {:induction false} StaysInFlight(b: Build, run: Run, n: nat, tid: Tid, m: nat)
    requires IsRun(b, run) && n < |run.states| && Announcing(run, tid, m, n)
    ensures tid in run.states[n].inFlight
    decreases n
  {
    assert StepTaken(b, run, n - 1);
    if m < n - 1 {
      StaysInFlight(b, run, n - 1, tid, m);
    }
  }

  // ---------------------------------------------------- the decision to shut down

  /** No thread stores the flag strictly between steps i and j. */
  predicate NoStore(steps: seq<Step>, i: nat, j: nat)
    requires j <= |steps|
  {
    forall m :: i < m < j ==> !steps[m].StoreFlag?
  }

  predicate NoClear(steps: seq<Step>, i: nat, j: nat)
    requires j <= |steps|
  {
    forall m :: i < m < j ==> !steps[m].Clear?
  }

  /** Where the monitor can have come from, and what a step does to the flag. */
  lemma StepBack(b: Build, s: State, step: Step)
    requires Enabled(b, s, step)
    ensures var s' := Apply(b, s, step);
            && (s'.activity <==> step.StoreFlag? || (s.activity && !step.Clear?))
            && (Checking(s'.pc) ==> step.Clear? || Checking(s.pc))
            && (Checking(s'.pc) && !s'.pc.WaitTimed? ==>
                  (step.TimeOut? && !s.event && s.pc.WaitTimed?)
                  || (!step.Clear? && !step.TimeOut? && Checking(s.pc) && !s.pc.WaitTimed?))
  {
  }

  /** The range grows by one step. */
  lemma OneStepMore(steps: seq<Step>, i: nat, j: nat)
    requires i < j < |steps|
    ensures NoStore(steps, i, j + 1) <==> NoStore(steps, i, j) && !steps[j].StoreFlag?
    ensures NoClear(steps, i, j + 1) <==> NoClear(steps, i, j) && !steps[j].Clear?
  {
  }

  /** r is the last reset of the flag before state n. */
  ghost predicate LastReset(run: Run, r: nat, n: nat)
    requires |run.states| == |run.steps| + 1 && n < |run.states|
  {
    r < n && run.steps[r].Clear? && NoClear(run.steps, r, n)
  }

  /** t is a timed wait after r that ended with the event unsignalled. */
  ghost predicate TimedOut(run: Run, r: nat, t: nat, n: nat)
    requires |run.states| == |run.steps| + 1 && n < |run.states|
  {
    r < t < n && run.steps[t].TimeOut? && !run.states[t].event
  }

  /** f is a reading of the flag after t, with no store since the reset r. */
  ghost predicate FlagReadClear(run: Run, r: nat, t: nat, f: nat, n: nat, again: bool)
    requires |run.states| == |run.steps| + 1 && n < |run.states|
  {
    && t < f < n && NoStore(run.steps, r, f)
    && (if again then run.steps[f].TestFlagAgain? else run.steps[f].TestFlag?)
  }

  /** c is a reading of the count after f that found zero. */
  ghost predicate CountReadZero(run: Run, f: nat, c: nat, n: nat, again: bool)
    requires |run.states| == |run.steps| + 1 && n < |run.states|
  {
    && f < c < n && run.states[c].lockCount == 0
    && (if again then run.steps[c].TestCountAgain? else run.steps[c].TestCount?)
  }

  /** While checking, the flag tells whether a thread has stored it since the last reset. */
  lemma {:induction false} FlagMeansStored(b: Build, run: Run, n: nat) returns (r: nat)
    requires IsRun(b, run) && n < |run.states| && Checking(run.states[n].pc)
    ensures LastReset(run, r, n)
    ensures run.states[n].activity <==> !NoStore(run.steps, r, n)
  {
    assert StepTaken(b, run, n - 1);
    StepBack(b, run.states[n - 1], run.steps[n - 1]);
    if run.steps[n - 1].Clear? {
      r := n - 1;
    } else {
      r := FlagMeansStored(b, run, n - 1);
      OneStepMore(run.steps, r, n - 1);
    }
  }

  /** The steps behind a monitor that has left its timed wait. */
  lemma {:induction false} WaitBehind(b: Build, run: Run, n: nat) returns (r: nat, t: nat)
    requires IsRun(b, run) && n < |run.states|
    requires Checking(run.states[n].pc) && !run.states[n].pc.WaitTimed?
    ensures LastReset(run, r, n) && TimedOut(run, r, t, n)
    ensures run.states[n].activity <==> !NoStore(run.steps, r, n)
  {
    assert StepTaken(b, run, n - 1);
    StepBack(b, run.states[n - 1], run.steps[n - 1]);
    if run.steps[n - 1].TimeOut? {
      r := FlagMeansStored(b, run, n - 1);
      t := n - 1;
      OneStepMore(run.steps, r, n - 1);
    } else {
      r, t := WaitBehind(b, run, n - 1);
      OneStepMore(run.steps, r, n - 1);
    }
  }

  /** The steps behind a monitor that has read the flag and is about to read the count. */
  lemma {:induction false} FlagBehind(b: Build, run: Run, n: nat, again: bool) returns (r: nat, t: nat, f: nat)
    requires IsRun(b, run) && n < |run.states|
    requires run.states[n].pc == if again then ReadCountAgain else ReadCount
    ensures LastReset(run, r, n) && TimedOut(run, r, t, n) && FlagReadClear(run, r, t, f, n, again)
  {
    assert StepTaken(b, run, n - 1);
    if run.steps[n - 1].TestFlag? || run.steps[n - 1].TestFlagAgain? {
      r, t := WaitBehind(b, run, n - 1);
      f := n - 1;
      OneStepMore(run.steps, r, n - 1);
    } else {
      r, t, f := FlagBehind(b, run, n - 1, again);
      OneStepMore(run.steps, r, n - 1);
    }
  }

  /**
   * The monitor shuts down only after a timed wait that ended with the event
   * unsignalled, followed by a reading of the flag with no store since its last
   * reset, followed by a reading of the count that found zero.  In the
   * free-threaded build these are the second readings, after the suspension.
   */
  lemma {:induction false} ShutdownDecision(b: Build, run: Run, n: nat) returns (r: nat, t: nat, f: nat, c: nat)
    requires IsRun(b, run) && n < |run.states| && Exiting(run.states[n].pc)
    ensures LastReset(run, r, n) && TimedOut(run, r, t, n)
    ensures FlagReadClear(run, r, t, f, n, b.freeThreaded) && CountReadZero(run, f, c, n, b.freeThreaded)
  {
    assert StepTaken(b, run, n - 1);
    if run.steps[n - 1].TestCount? || run.steps[n - 1].TestCountAgain? {
      OnlyFreeThreadedSuspends(b, run, n - 1);
      r, t, f := FlagBehind(b, run, n - 1, b.freeThreaded);
      c := n - 1;
    } else {
      r, t, f, c := ShutdownDecision(b, run, n - 1);
    }
    OneStepMore(run.steps, r, n - 1);
  }

  lemma {:induction false} OnlyFreeThreadedSuspends(b: Build, run: Run, n: nat)
    requires IsRun(b, run) && n < |run.states|
    ensures run.states[n].pc in {Suspend, ReadFlagAgain, ReadCountAgain} ==> b.freeThreaded
  {
    if n > 0 {
      assert StepTaken(b, run, n - 1);
      OnlyFreeThreadedSuspends(b, run, n - 1);
    }
  }

  // ----------------------------------------------------- the count stays at zero

  /** Once the monitor has decided to exit the count is zero in every state. */
  ghost predicate StaysAtZero(b: Build, run: Run) {
    forall n :: 0 <= n < |run.states| && Exiting(run.states[n].pc) ==> run.states[n].lockCount == 0
  }

  lemma {:induction false} SuspendedAndZero(b: Build, run: Run, n: nat)
    requires IsRun(b, run) && n < |run.states| && b.freeThreaded && b.risesByActivation
    ensures run.states[n].pc in {ReadFlagAgain, ReadCountAgain} ==> run.states[n].suspended
    ensures Exiting(run.states[n].pc) ==> run.states[n].suspended && run.states[n].lockCount == 0
  {
    if n > 0 {
      assert StepTaken(b, run, n - 1);
      SuspendedAndZero(b, run, n - 1);
    }
  }

  /**
   * That holds of every run exactly in the free-threaded build of a module
   * whose count leaves zero only through an activation.
   */
  lemma ZeroIsFinalExactly(b: Build)
    ensures (forall run :: IsRun(b, run) ==> StaysAtZero(b, run)) <==> b.freeThreaded && b.risesByActivation
  {
    if b.freeThreaded && b.risesByActivation {
      forall run | IsRun(b, run) ensures StaysAtZero(b, run) {
        forall n | 0 <= n < |run.states| && Exiting(run.states[n].pc) ensures run.states[n].lockCount == 0 {
          SuspendedAndZero(b, run, n);
        }
      }
    } else {
      var run := LockAfterDecision(b);
      assert !StaysAtZero(b, run);
    }
  }

  function Last(run: Run): State
    requires run.states != []
  {
    run.states[|run.states| - 1]
  }

  /** One more step of a run. */
  lemma Advance(b: Build, run: Run, step: Step) returns (run': Run)
    requires IsRun(b, run) && Enabled(b, Last(run), step)
    ensures IsRun(b, run') && Last(run') == Apply(b, Last(run), step)
    ensures run'.steps == run.steps + [step] && run.states <= run'.states
  {
    run' := Run(run.states + [Apply(b, Last(run), step)], run.steps + [step]);
    forall i | 0 <= i < |run'.steps| ensures StepTaken(b, run', i) {
      assert i < |run.steps| ==> StepTaken(b, run, i);
    }
  }

  /** The step neither locks nor unlocks the module. */
  predicate Finishing(step: Step) {
    !step.Lock? && !step.Unlock?
  }

  /** Threads only finish what they have begun. */
  predicate OnlyFinishing(steps: seq<Step>) {
    forall step :: step in steps ==> Finishing(step)
  }

  /** run' goes on from run without any further locking or unlocking. */
  predicate Continues(run: Run, run': Run) {
    && |run.steps| <= |run'.steps| && run'.steps[..|run.steps|] == run.steps
    && run.states <= run'.states
    && OnlyFinishing(run'.steps[|run.steps|..])
  }

  /** One more step that neither locks nor unlocks. */
  lemma GoOn(b: Build, start: Run, run: Run, step: Step) returns (run': Run)
    requires IsRun(b, run) && Enabled(b, Last(run), step) && Continues(start, run)
    requires Finishing(step)
    ensures IsRun(b, run') && Last(run') == Apply(b, Last(run), step) && Continues(start, run')
  {
    run' := Advance(b, run, step);
    var k := |start.steps|;
    assert run'.steps[..k] == run.steps[..k];
    assert run'.steps[k..] == run.steps[k..] + [step];
  }

  /** From a parked monitor with the event signalled and nothing going on, to the decision to exit. */
  lemma QuietDecision(b: Build, start: Run, run: Run) returns (run': Run)
    requires IsRun(b, run) && Continues(start, run)
    requires Last(run).pc.WaitForever? && Last(run).event && Last(run).lockCount == 0
    ensures IsRun(b, run') && Continues(start, run')
    ensures Last(run').pc.CloseEvent? && Last(run').lockCount == 0
    ensures Last(run').suspended <==> b.freeThreaded || Last(run).suspended
  {
    run' := GoOn(b, start, run, Wake);
    run' := GoOn(b, start, run', Clear);
    run' := GoOn(b, start, run', TimeOut);
    run' := GoOn(b, start, run', TestFlag);
    run' := GoOn(b, start, run', TestCount);
    if b.freeThreaded {
      run' := GoOn(b, start, run', SuspendClasses);
      run' := GoOn(b, start, run', TestFlagAgain);
      run' := GoOn(b, start, run', TestCountAgain);
    }
  }

  /** A run in which the module is locked again after the decision, possible in every other build. */
  lemma LockAfterDecision(b: Build) returns (run: Run)
    requires !(b.freeThreaded && b.risesByActivation)
    ensures IsRun(b, run) && Exiting(Last(run).pc) && Last(run).lockCount == 1
  {
    run := Run([State(0, false, false, false, WaitForever, map[], false)], []);
    run := Advance(b, run, Lock);
    run := Advance(b, run, Unlock(0));
    run := Advance(b, run, StoreFlag(0));
    run := Advance(b, run, Signal(0));
    assert run.steps[|run.steps|..] == [];
    run := QuietDecision(b, run, run);
    run := Advance(b, run, Lock);
  }

  // --------------------------------------------------------- the module does exit

  /** The threads in flight that have still to store the flag. */
  function BeforeStore(inFlight: map<Tid, Worker>): set<Tid> {
    set tid | tid in inFlight && inFlight[tid].Decremented?
  }

  /** How many statements the threads in flight have still to carry out. */
  function Pending(inFlight: map<Tid, Worker>): nat {
    |inFlight.Keys| + |BeforeStore(inFlight)|
  }

  lemma StoreLessPending(inFlight: map<Tid, Worker>, tid: Tid)
    requires tid in inFlight && inFlight[tid].Decremented?
    ensures Pending(inFlight[tid := FlagStored]) < Pending(inFlight)
  {
    var after := inFlight[tid := FlagStored];
    assert after.Keys == inFlight.Keys;
    assert BeforeStore(after) == BeforeStore(inFlight) - {tid};
  }

  lemma SignalLessPending(inFlight: map<Tid, Worker>, tid: Tid)
    requires tid in inFlight && inFlight[tid].FlagStored?
    ensures Pending(inFlight - {tid}) < Pending(inFlight)
  {
    assert (inFlight - {tid}).Keys == inFlight.Keys - {tid};
    assert BeforeStore(inFlight - {tid}) == BeforeStore(inFlight);
  }

  /** How far the monitor is from the end, or from going back to wait. */
  function Distance(pc: Pc): (r: nat)
    ensures r < 12
  {
    match pc
    case ClearFlag => 10
    case WaitTimed => 9
    case ReadFlag => 8
    case ReadCount => 7
    case Suspend => 6
    case ReadFlagAgain => 5
    case ReadCountAgain => 4
    case CloseEvent => 3
    case PostQuit => 2
    case WaitForever => 0
    case Done => 0
  }

  /** What is left to do: statements of the threads in flight, then a signal, then the monitor's own statements. */
  function WorkLeft(s: State): nat {
    24 * Pending(s.inFlight) + (if s.event then 12 else 0) + Distance(s.pc)
  }

  /** Every step that neither locks nor unlocks leaves less to do. */
  lemma FinishingDecreases(b: Build, s: State, step: Step)
    requires Enabled(b, s, step) && Finishing(step)
    ensures WorkLeft(Apply(b, s, step)) < WorkLeft(s)
  {
    match step
    case StoreFlag(tid) => StoreLessPending(s.inFlight, tid);
    case Signal(tid) => SignalLessPending(s.inFlight, tid);
    case _ =>
  }

  /** Until the monitor has ended, with the count at zero after an unlock, such a step can be taken. */
  lemma NeverStuck(b: Build, s: State) returns (step: Step)
    requires Inv(s) && s.lockCount == 0 && s.reachedZero && !s.pc.Done?
    ensures Enabled(b, s, step) && Finishing(step)
  {
    match s.pc
    case WaitForever =>
      if s.event {
        step := Wake;
      } else {
        var tid :| tid in s.inFlight;
        step := if s.inFlight[tid].Decremented? then StoreFlag(tid) else Signal(tid);
      }
    case ClearFlag => step := Clear;
    case WaitTimed => step := if s.event then WakeTimed else TimeOut;
    case ReadFlag => step := TestFlag;
    case ReadCount => step := TestCount;
    case Suspend => step := SuspendClasses;
    case ReadFlagAgain => step := TestFlagAgain;
    case ReadCountAgain => step := TestCountAgain;
    case CloseEvent => step := Close;
    case PostQuit => step := Post;
  }

  /** Along a run that only finishes what is begun, each step is paid for, and the count stays as it is. */
  lemma {:induction false} WorkAlong(b: Build, run: Run, n: nat, m: nat)
    requires IsRun(b, run) && n <= m < |run.states|
    requires forall i :: n <= i < m ==> Finishing(run.steps[i])
    ensures m - n + WorkLeft(run.states[m]) <= WorkLeft(run.states[n])
    ensures run.states[m].lockCount == run.states[n].lockCount
    ensures run.states[m].reachedZero == run.states[n].reachedZero
    decreases m
  {
    if n < m {
      WorkAlong(b, run, n, m - 1);
      assert StepTaken(b, run, m - 1);
      FinishingDecreases(b, run.states[m - 1], run.steps[m - 1]);
    }
  }

  /**
   * Once the count is zero after an unlock, every way to go on without locking
   * leads to the end: no such continuation is longer than the work left, and
   * one that has not come to the end can go on.
   */
  lemma ExitIsInevitable(b: Build, run: Run, run': Run)
    requires IsRun(b, run) && IsRun(b, run') && Continues(run, run')
    requires Last(run).lockCount == 0 && Last(run).reachedZero
    ensures |run'.steps| <= |run.steps| + WorkLeft(Last(run))
    ensures Last(run').pc.Done? || exists step :: Finishing(step) && Enabled(b, Last(run'), step)
    ensures Last(run').lockCount == 0
  {
    var n, m := |run.steps|, |run'.steps|;
    forall i | n <= i < m ensures Finishing(run'.steps[i]) {
      assert run'.steps[i] == run'.steps[n..][i - n];
    }
    assert run'.states[n] == Last(run);
    WorkAlong(b, run', n, m);
    NoWakeupIsLost(b, run', m);
    if !Last(run').pc.Done? {
      var step := NeverStuck(b, Last(run'));
    }
  }

  /** In particular the run can be continued to the end. */
  lemma {:induction false} CanStillShutDown(b: Build, start: Run, run: Run) returns (run': Run)
    requires IsRun(b, run) && Continues(start, run)
    requires Last(run).lockCount == 0 && Last(run).reachedZero
    ensures IsRun(b, run') && Continues(start, run')
    ensures Last(run').pc.Done? && Last(run').lockCount == 0
    decreases WorkLeft(Last(run))
  {
    run' := run;
    if !Last(run).pc.Done? {
      NoWakeupIsLost(b, run, |run.states| - 1);
      var step := NeverStuck(b, Last(run));
      FinishingDecreases(b, Last(run), step);
      run' := GoOn(b, start, run, step);
      run' := CanStillShutDown(b, start, run');
    }
  }
}
